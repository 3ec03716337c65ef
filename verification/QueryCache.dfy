/** The query result cache: an LRU list, a map, and a reverse index by entity class. */
module QueryCache {
  import opened Options
  import opened EntryList
  import opened EntryMap
  import opened Recency

  type ClassId = string

  /** What an entry carries besides its key and links. */
  datatype Cached<T> = Cached(results: seq<T>, entityClass: ClassId, expiresAt: int)

  // ------------------------------------------------ the simple form

  type View<T> = seq<Item<Cached<T>>>

  /** A lookup: a live entry moves to the front, an expired one is dropped. */
  function Got<T>(view: View<T>, key: string, now: int): View<T> {
    var i := Find(view, key);
    if i == |view| then view
    else if now > view[i].value.expiresAt then Without(view, key)
    else [view[i]] + Without(view, key)
  }

  function Answer<T>(view: View<T>, key: string, now: int): Option<seq<T>> {
    var i := Find(view, key);
    if i < |view| && now <= view[i].value.expiresAt then Some(view[i].value.results) else None
  }

  /** A store: the key moves to the front, and the last item goes when there are too many. */
  function Stored<T>(view: View<T>, item: Item<Cached<T>>, maxSize: nat): View<T> {
    var all := [item] + Without(view, item.key);
    if |all| > maxSize then all[..|all| - 1] else all
  }

  function WithoutClass<T>(view: View<T>, c: ClassId): View<T> {
    if |view| == 0 then []
    else if view[0].value.entityClass == c then WithoutClass(view[1..], c)
    else [view[0]] + WithoutClass(view[1..], c)
  }

  function CountClass<T>(view: View<T>, c: ClassId): nat {
    if |view| == 0 then 0 else (if view[0].value.entityClass == c then 1 else 0) + CountClass(view[1..], c)
  }

  lemma {:induction false} WithoutClassDrops<T>(view: View<T>, i: nat, c: ClassId)
    requires i < |view| && view[i].value.entityClass == c
    ensures WithoutClass(Dropped(view, i), c) == WithoutClass(view, c)
    ensures CountClass(Dropped(view, i), c) == CountClass(view, c) - 1
  {
    if i == 0 {
      assert Dropped(view, 0) == view[1..];
    } else {
      WithoutClassDrops(view[1..], i - 1, c);
      assert Dropped(view, i)[1..] == Dropped(view[1..], i - 1);
    }
  }

  lemma {:induction false} WithoutClassAbsent<T>(view: View<T>, c: ClassId)
    requires forall i :: 0 <= i < |view| ==> view[i].value.entityClass != c
    ensures WithoutClass(view, c) == view && CountClass(view, c) == 0
  {
    if |view| > 0 { WithoutClassAbsent(view[1..], c); }
  }

  // ------------------------------------------- map and index, as values

  type Order<T> = seq<Entry<Cached<T>>>

  /** The entries of a class. */
  function Members<T>(order: Order<T>, view: View<T>, c: ClassId): set<Entry<Cached<T>>>
    requires |order| == |view|
  {
    set i | 0 <= i < |order| && view[i].value.entityClass == c :: order[i]
  }

  /** The index holds, for exactly the classes that have entries, exactly their entries: no empty set. */
  ghost predicate IndexOk<T>(order: Order<T>, view: View<T>, index: map<ClassId, set<Entry<Cached<T>>>>)
    requires |order| == |view|
  {
    forall c: ClassId :: (c in index <==> Members(order, view, c) != {}) && (c in index ==> index[c] == Members(order, view, c))
  }

  function IndexWithout<T>(index: map<ClassId, set<Entry<Cached<T>>>>, c: ClassId, x: Entry<Cached<T>>)
    : map<ClassId, set<Entry<Cached<T>>>>
  {
    if c !in index then index
    else if index[c] - {x} == {} then index - {c}
    else index[c := index[c] - {x}]
  }

  function IndexWith<T>(index: map<ClassId, set<Entry<Cached<T>>>>, c: ClassId, x: Entry<Cached<T>>)
    : map<ClassId, set<Entry<Cached<T>>>>
  {
    index[c := (if c in index then index[c] else {}) + {x}]
  }

  lemma MembersDrops<T>(order: Order<T>, view: View<T>, i: nat, c: ClassId)
    requires |order| == |view| && NoRepeats(order) && i < |order|
    ensures Members(Dropped(order, i), Dropped(view, i), c)
         == Members(order, view, c) - if view[i].value.entityClass == c then {order[i]} else {}
  {
    var order', view' := Dropped(order, i), Dropped(view, i);
    forall j | 0 <= j < |order| && j != i && view[j].value.entityClass == c ensures order[j] in Members(order', view', c) {
      var j' := if j < i then j else j - 1;
      assert order'[j'] == order[j] && view'[j'] == view[j];
    }
    forall j | 0 <= j < |order'| && view'[j].value.entityClass == c ensures order'[j] in Members(order, view, c) {
      var j0 := if j < i then j else j + 1;
      assert order'[j] == order[j0] && view'[j] == view[j0];
    }
  }

  lemma IndexDrops<T>(order: Order<T>, view: View<T>, index: map<ClassId, set<Entry<Cached<T>>>>, i: nat)
    requires |order| == |view| && IndexOk(order, view, index) && NoRepeats(order) && i < |order|
    ensures IndexOk(Dropped(order, i), Dropped(view, i), IndexWithout(index, view[i].value.entityClass, order[i]))
  {
    hide Members, NoRepeats;
    var index' := IndexWithout(index, view[i].value.entityClass, order[i]);
    forall c: ClassId
      ensures var ms := Members(Dropped(order, i), Dropped(view, i), c);
        (c in index' <==> ms != {}) && (c in index' ==> index'[c] == ms)
    {
      MembersDrops(order, view, i, c);
      assert c in index <==> Members(order, view, c) != {};
    }
  }

  lemma MembersAdds<T>(order: Order<T>, view: View<T>, x: Entry<Cached<T>>, item: Item<Cached<T>>, c: ClassId)
    requires |order| == |view|
    ensures Members([x] + order, [item] + view, c)
         == Members(order, view, c) + if item.value.entityClass == c then {x} else {}
  {
    var order', view' := [x] + order, [item] + view;
    forall j | 0 <= j < |order| && view[j].value.entityClass == c ensures order[j] in Members(order', view', c) {
      assert order'[j + 1] == order[j] && view'[j + 1] == view[j];
    }
    if item.value.entityClass == c { assert order'[0] == x && view'[0] == item; }
  }

  lemma IndexAdds<T>(order: Order<T>, view: View<T>, index: map<ClassId, set<Entry<Cached<T>>>>,
                     x: Entry<Cached<T>>, item: Item<Cached<T>>)
    requires |order| == |view| && IndexOk(order, view, index)
    ensures IndexOk([x] + order, [item] + view, IndexWith(index, item.value.entityClass, x))
  {
    hide Members;
    var index' := IndexWith(index, item.value.entityClass, x);
    forall c: ClassId
      ensures var ms := Members([x] + order, [item] + view, c);
        (c in index' <==> ms != {}) && (c in index' ==> index'[c] == ms)
    {
      MembersAdds(order, view, x, item, c);
      assert c in index <==> Members(order, view, c) != {};
    }
  }

  /** Giving an entry another value moves it from the old class to the new one. */
  lemma MembersReclass<T>(order: Order<T>, view: View<T>, i: nat, item: Item<Cached<T>>, c: ClassId)
    requires |order| == |view| && NoRepeats(order) && i < |order|
    ensures Members(order, view[i := item], c)
         == Members(order, view, c) - {order[i]} + if item.value.entityClass == c then {order[i]} else {}
  {
    var view' := view[i := item];
    forall j | 0 <= j < |order| && j != i && view[j].value.entityClass == c ensures order[j] in Members(order, view', c) {
      assert view'[j] == view[j];
    }
    if item.value.entityClass == c { assert view'[i] == item; }
  }

  lemma IndexReclass<T>(order: Order<T>, view: View<T>, index: map<ClassId, set<Entry<Cached<T>>>>, i: nat, item: Item<Cached<T>>)
    requires |order| == |view| && IndexOk(order, view, index) && NoRepeats(order) && i < |order|
    ensures var c0, c1 := view[i].value.entityClass, item.value.entityClass;
      IndexOk(order, view[i := item], if c0 == c1 then index else IndexWith(IndexWithout(index, c0, order[i]), c1, order[i]))
  {
    var c0, c1 := view[i].value.entityClass, item.value.entityClass;
    assert order[i] in Members(order, view, c0);
    hide Members, NoRepeats;
    var index' := if c0 == c1 then index else IndexWith(IndexWithout(index, c0, order[i]), c1, order[i]);
    forall c: ClassId
      ensures var ms := Members(order, view[i := item], c);
        (c in index' <==> ms != {}) && (c in index' ==> index'[c] == ms)
    {
      MembersReclass(order, view, i, item, c);
      OnlyOwnClass(order, view, i, c);
      assert c in index <==> Members(order, view, c) != {};
    }
  }

  lemma OnlyOwnClass<T>(order: Order<T>, view: View<T>, i: nat, c: ClassId)
    requires |order| == |view| && NoRepeats(order) && i < |order|
    ensures order[i] in Members(order, view, c) <==> view[i].value.entityClass == c
  {
  }

  lemma FrontKeepsMembers<T>(order: Order<T>, view: View<T>, i: nat, c: ClassId)
    requires |order| == |view| && NoRepeats(order) && i < |order|
    ensures Members([order[i]] + Dropped(order, i), [view[i]] + Dropped(view, i), c) == Members(order, view, c)
  {
    MembersDrops(order, view, i, c);
    MembersAdds(Dropped(order, i), Dropped(view, i), order[i], view[i], c);
    if view[i].value.entityClass == c { assert order[i] in Members(order, view, c); }
  }

  lemma FrontKeepsIndex<T>(order: Order<T>, view: View<T>, index: map<ClassId, set<Entry<Cached<T>>>>, i: nat)
    requires |order| == |view| && IndexOk(order, view, index) && NoRepeats(order) && i < |order|
    ensures IndexOk([order[i]] + Dropped(order, i), [view[i]] + Dropped(view, i), index)
  {
    hide Members, NoRepeats;
    forall c: ClassId ensures var ms := Members([order[i]] + Dropped(order, i), [view[i]] + Dropped(view, i), c);
      (c in index <==> ms != {}) && (c in index ==> index[c] == ms)
    {
      FrontKeepsMembers(order, view, i, c);
      assert c in index <==> Members(order, view, c) != {};
    }
  }

  // ------------------------------------------------------- the cache

  class QueryCache<T> {
    const enabled: bool
    const maxSize: nat
    const maxResultSize: nat
    const list: EntryList<Cached<T>>
    var entries: map<string, Entry<Cached<T>>>
    var entityIndex: map<ClassId, set<Entry<Cached<T>>>>
    var hits: nat
    var misses: nat
    var puts: nat
    var invalidations: nat
    var expirations: nat

    /** The map, the list and the entity index hold exactly the same entries, at most maxSize of them. */
    ghost predicate Valid()
      reads this, list, list.order
    {
      Consistent() && |list.order| <= maxSize
    }

    ghost predicate Consistent()
      reads this, list, list.order
    {
      list.Valid() && MapOk(list.order, entries) && IndexOk(list.order, View(), entityIndex)
    }

    ghost function View(): (view: View<T>)
      reads list, list.order
      ensures |view| == |list.order|
      ensures forall i :: 0 <= i < |view| ==> view[i] == Item(list.order[i].key, list.order[i].value)
    {
      list.Items()
    }

    constructor (enabled: bool, maxSize: nat, maxResultSize: nat)
      ensures Valid() && View() == [] && fresh(list)
      ensures this.enabled == enabled && this.maxSize == maxSize && this.maxResultSize == maxResultSize
      ensures hits == misses == puts == invalidations == expirations == 0
    {
      this.enabled, this.maxSize, this.maxResultSize := enabled, maxSize, maxResultSize;
      list := new EntryList();
      entries, entityIndex := map[], map[];
      hits, misses, puts, invalidations, expirations := 0, 0, 0, 0, 0;
    }

    method AddToEntityIndex(entry: Entry<Cached<T>>)
      modifies this`entityIndex
      ensures entityIndex == IndexWith(old(entityIndex), entry.value.entityClass, entry)
    {
      var c := entry.value.entityClass;
      var s := if c in entityIndex then entityIndex[c] else {};
      entityIndex := entityIndex[c := s + {entry}];
    }

    method RemoveFromEntityIndex(entry: Entry<Cached<T>>)
      modifies this`entityIndex
      ensures entityIndex == IndexWithout(old(entityIndex), entry.value.entityClass, entry)
    {
      var c := entry.value.entityClass;
      if c in entityIndex {
        var s := entityIndex[c] - {entry};
        entityIndex := entityIndex[c := s];
        if s == {} {
          entityIndex := entityIndex - {c};
        }
      }
    }

    /** Drops an entry from list, map and index. */
    method RemoveEntry(entry: Entry<Cached<T>>, ghost i: nat)
      requires Consistent() && i < |list.order| && list.order[i] == entry
      modifies this`entries, this`entityIndex, list, (set x | x in list.order)`prev, (set x | x in list.order)`next
      ensures Consistent() && list.order == Dropped(old(list.order), i)
      ensures View() == Dropped(old(View()), i)
    {
      hide MapOk, IndexOk, IndexWithout, list.Valid, NoRepeats;
      ghost var order, view := list.order, View();
      list.EntriesDistinct();
      MapDrops(order, entries, i);
      IndexDrops(order, view, entityIndex, i);
      list.Unlink(entry, i);
      entries := entries - {entry.key};
      RemoveFromEntityIndex(entry);
    }

    /** Moves an entry to the head. */
    method Touch(entry: Entry<Cached<T>>, ghost i: nat)
      requires Consistent() && i < |list.order| && list.order[i] == entry
      modifies list, (set x | x in list.order)`prev, (set x | x in list.order)`next
      ensures Consistent() && list.order == [entry] + Dropped(old(list.order), i)
      ensures View() == [old(View())[i]] + Dropped(old(View()), i)
    {
      hide MapOk, IndexOk, list.Valid, NoRepeats;
      ghost var order, view := list.order, View();
      list.EntriesDistinct();
      FrontKeepsMap(order, entries, i);
      FrontKeepsIndex(order, view, entityIndex, i);
      list.Front(entry, i);
    }

    /** The map's entry for a key, and where it stands in the list. */
    method Lookup(key: string) returns (entry: Entry?<Cached<T>>, ghost i: nat)
      requires Consistent()
      ensures entry == null ==> key !in entries && Find(View(), key) == |View()| && Without(View(), key) == View()
      ensures entry != null ==> key in entries && i < |list.order| && list.order[i] == entry && entry.key == key
      ensures entry != null ==> Find(View(), key) == i && Without(View(), key) == Dropped(View(), i)
      ensures |entries| == |list.order|
    {
      hide IndexOk, list.Valid, Find, Without;
      ghost var order, view := list.order, View();
      list.EntriesDistinct();
      KeysDistinct(order, entries);
      i := 0;
      if key in entries {
        entry := entries[key];
        i :| 0 <= i < |order| && order[i] == entry;
        FindAt(view, i);
        WithoutAt(view, i);
        assert view[..i] + view[i + 1..] == Dropped(view, i);
      } else {
        entry := null;
        NotFound(view, key);
      }
    }

    static lemma NotFound(view: View<T>, key: string)
      requires forall i :: 0 <= i < |view| ==> view[i].key != key
      ensures Find(view, key) == |view| && Without(view, key) == view
    {
      WithoutAbsent(view, key);
    }

    /** Looks a key up at a time: a hit moves to the head, an expired entry is removed. */
    method Get(key: string, now: int) returns (r: Option<seq<T>>)
      requires Valid()
      modifies this`entries, this`entityIndex, this`hits, this`misses, this`expirations
      modifies list, (set x | x in list.order)`prev, (set x | x in list.order)`next
      ensures Valid()
      ensures !enabled ==> r == None && View() == old(View())
      ensures enabled ==> r == Answer(old(View()), key, now) && View() == Got(old(View()), key, now)
      ensures enabled ==> hits == old(hits) + (if r.Some? then 1 else 0) && misses == old(misses) + (if r.None? then 1 else 0)
      ensures enabled ==> expirations == old(expirations) + |old(View())| - |View()|
    {
      hide MapOk, IndexOk, list.Valid, Find, Without;
      if !enabled {
        return None;
      }
      var entry, i := Lookup(key);
      if entry == null {
        misses := misses + 1;
        return None;
      }
      if now > entry.value.expiresAt {
        RemoveEntry(entry, i);
        expirations := expirations + 1;
        misses := misses + 1;
        return None;
      }
      Touch(entry, i);
      hits := hits + 1;
      r := Some(entry.value.results);
    }

    /** Gives an entry new contents, re-indexing it when its class changes. */
    method Update(entry: Entry<Cached<T>>, cached: Cached<T>, ghost i: nat)
      requires Consistent() && i < |list.order| && list.order[i] == entry
      modifies this`entityIndex, entry`value
      ensures Consistent() && list.order == old(list.order)
      ensures View() == old(View())[i := Item(entry.key, cached)]
    {
      hide MapOk, IndexOk, list.Valid, NoRepeats, IndexWith, IndexWithout;
      ghost var order, view, item := list.order, View(), Item(entry.key, cached);
      list.EntriesDistinct();
      IndexReclass(order, view, entityIndex, i, item);
      var reclass := entry.value.entityClass != cached.entityClass;
      if reclass {
        RemoveFromEntityIndex(entry);
      }
      list.SetValue(entry, cached, i);
      if reclass {
        AddToEntityIndex(entry);
      }
    }

    /** Adds a new entry at the head. */
    method Insert(key: string, cached: Cached<T>)
      requires Consistent() && key !in entries
      modifies this`entries, this`entityIndex, list, (set x | x in list.order)`prev
      ensures Consistent() && View() == [Item(key, cached)] + old(View())
      ensures |list.order| == |old(list.order)| + 1 && fresh(list.order[0]) && list.order[1..] == old(list.order)
    {
      hide MapOk, IndexOk, list.Valid, NoRepeats, IndexWith;
      ghost var order, view := list.order, View();
      var entry := new Entry(key, cached);
      MapAdds(order, entries, entry);
      IndexAdds(order, view, entityIndex, entry, Item(key, cached));
      entries := entries[key := entry];
      list.AddToHead(entry);
      AddToEntityIndex(entry);
      assert View() == [Item(key, cached)] + view;
    }

    /** Evicts the least recent entry. */
    method EvictTail()
      requires Consistent() && |list.order| > 0
      modifies this`entries, this`entityIndex, list, (set x | x in list.order)`prev, (set x | x in list.order)`next
      ensures Consistent() && View() == old(View())[..|old(View())| - 1] && |list.order| == |old(list.order)| - 1
    {
      hide MapOk, IndexOk, list.Valid, NoRepeats, IndexWithout;
      ghost var order, view := list.order, View();
      ghost var last := |order| - 1;
      list.EntriesDistinct();
      MapDrops(order, entries, last);
      IndexDrops(order, view, entityIndex, last);
      var evicted := list.RemoveTail();
      entries := entries - {evicted.key};
      RemoveFromEntityIndex(evicted);
      assert View() == Dropped(view, last);
    }

    /** Rewrites an entry and moves it to the head. */
    method Refresh(entry: Entry<Cached<T>>, cached: Cached<T>, ghost i: nat)
      requires Consistent() && i < |list.order| && list.order[i] == entry
      modifies this`entityIndex, entry`value, list, (set x | x in list.order)`prev, (set x | x in list.order)`next
      ensures Consistent() && |list.order| == |old(list.order)|
      ensures View() == [Item(entry.key, cached)] + Dropped(old(View()), i)
    {
      hide MapOk, IndexOk, list.Valid, NoRepeats;
      ghost var view := View();
      Update(entry, cached, i);
      assert View()[i] == Item(entry.key, cached) && Dropped(View(), i) == Dropped(view, i);
      Touch(entry, i);
    }

    /** Adds an entry and, when there is one too many, evicts the least recent. */
    method Admit(key: string, cached: Cached<T>)
      requires Valid() && key !in entries
      modifies this`entries, this`entityIndex, list, (set x | x in list.order)`prev, (set x | x in list.order)`next
      ensures Valid()
      ensures var all := [Item(key, cached)] + old(View());
        View() == if |all| > maxSize then all[..|all| - 1] else all
    {
      hide MapOk, IndexOk, list.Valid, NoRepeats;
      Insert(key, cached);
      ghost var size := EntryCount();
      if |entries| > maxSize {
        EvictTail();
      }
    }

    /**
     * Stores a result set until a time - the caller's clock, time to live and
     * jitter already added up - unless it is too large.
     */
    method Put(key: string, results: seq<T>, entityClass: ClassId, expiresAt: int)
      requires Valid()
      modifies this`entries, this`entityIndex, this`puts
      modifies list, (set x | x in list.order)`prev, (set x | x in list.order)`next, (set x | x in list.order)`value
      ensures Valid()
      ensures !enabled || |results| > maxResultSize ==> View() == old(View()) && puts == old(puts)
      ensures enabled && |results| <= maxResultSize ==>
        puts == old(puts) + 1 &&
        View() == Stored(old(View()), Item(key, Cached(results, entityClass, expiresAt)), maxSize)
    {
      hide MapOk, IndexOk, list.Valid, Find, Without, NoRepeats;
      if !enabled || |results| > maxResultSize {
        return;
      }
      var cached := Cached(results, entityClass, expiresAt);
      var existing, i := Lookup(key);
      puts := puts + 1;
      if existing != null {
        Refresh(existing, cached, i);
      } else {
        Admit(key, cached);
      }
    }

    /** Removes one entry of a class. */
    method InvalidateOne(entry: Entry<Cached<T>>, ghost c: ClassId)
      requires Consistent() && entry in Members(list.order, View(), c)
      modifies this`entries, this`entityIndex, this`invalidations
      modifies list, (set x | x in list.order)`prev, (set x | x in list.order)`next
      ensures Consistent() && forall x :: x in list.order ==> x in old(list.order)
      ensures |list.order| == |old(list.order)| - 1
      ensures Members(list.order, View(), c) == old(Members(list.order, View(), c)) - {entry}
      ensures WithoutClass(View(), c) == WithoutClass(old(View()), c)
      ensures invalidations == old(invalidations) + 1 && CountClass(View(), c) == CountClass(old(View()), c) - 1
    {
      hide MapOk, IndexOk, list.Valid, WithoutClass, CountClass;
      ghost var order, view := list.order, View();
      ghost var i :| 0 <= i < |order| && order[i] == entry && view[i].value.entityClass == c;
      list.EntriesDistinct();
      MembersDrops(order, view, i, c);
      WithoutClassDrops(view, i, c);
      RemoveEntry(entry, i);
      invalidations := invalidations + 1;
    }

    /** Removes every entry of a class, in whatever order its set is walked. */
    method Invalidate(c: ClassId)
      requires Valid()
      modifies this`entries, this`entityIndex, this`invalidations
      modifies list, (set x | x in list.order)`prev, (set x | x in list.order)`next
      ensures Valid() && View() == WithoutClass(old(View()), c)
      ensures invalidations == old(invalidations) + CountClass(old(View()), c)
    {
      hide MapOk, list.Valid, WithoutClass, CountClass, Members;
      ghost var members := Members(list.order, View(), c);
      assert c in entityIndex <==> members != {};
      if c !in entityIndex {
        NoMembers(list.order, View(), c);
        return;
      }
      var todo := entityIndex[c];
      hide IndexOk;
      while todo != {}
        invariant Consistent() && |list.order| <= maxSize && todo == Members(list.order, View(), c)
        invariant forall x :: x in list.order ==> x in old(list.order)
        invariant WithoutClass(View(), c) == WithoutClass(old(View()), c)
        invariant invalidations + CountClass(View(), c) == old(invalidations) + CountClass(old(View()), c)
        decreases |todo|
      {
        var entry :| entry in todo;
        InvalidateOne(entry, c);
        todo := todo - {entry};
      }
      NoMembers(list.order, View(), c);
    }

    static lemma OwnMember(order: Order<T>, view: View<T>, i: nat)
      requires |order| == |view| && i < |view|
      ensures order[i] in Members(order, view, view[i].value.entityClass)
    {
    }

    static lemma NoMembers(order: Order<T>, view: View<T>, c: ClassId)
      requires |order| == |view| && Members(order, view, c) == {}
      ensures WithoutClass(view, c) == view && CountClass(view, c) == 0
    {
      hide Members;
      forall i | 0 <= i < |view| ensures view[i].value.entityClass != c {
        OwnMember(order, view, i);
      }
      WithoutClassAbsent(view, c);
    }

    /** Empties the cache without counting. */
    method Clear()
      requires Valid()
      modifies this`entries, this`entityIndex, list
      ensures Valid() && View() == []
    {
      entries, entityIndex := map[], map[];
      list.Clear();
    }

    /** Empties the cache, counting every entry as invalidated. */
    method InvalidateAll()
      requires Valid()
      modifies this`entries, this`entityIndex, this`invalidations, list
      ensures Valid() && View() == [] && invalidations == old(invalidations) + |old(View())|
    {
      ghost var size := EntryCount();
      var count := |entries|;
      entries, entityIndex := map[], map[];
      list.Clear();
      invalidations := invalidations + count;
    }

    /** The number of entries: never more than maxSize. */
    method Size() returns (n: nat)
      requires Valid()
      ensures n == |View()| <= maxSize
    {
      ghost var size := EntryCount();
      n := |entries|;
    }

    /** The map is as large as the list is long. */
    ghost method EntryCount() returns (n: nat)
      requires Consistent()
      ensures n == |entries| == |list.order|
    {
      hide IndexOk;
      list.EntriesDistinct();
      KeysDistinct(list.order, entries);
      n := |entries|;
    }
  }
}
