/** Whole histories of the query cache, on its simple form. */
module QueryCacheRuns {
  import opened Options
  import opened Recency
  import opened QueryCache

  datatype Operation<T> =
    | GetOp(key: string, now: int)
    | PutOp(key: string, cached: Cached<T>)
    | InvalidateOp(entityClass: ClassId)
    | EmptyOp

  datatype Limits = Limits(maxSize: nat, maxResultSize: nat)

  predicate Accepted<T>(op: Operation<T>, limits: Limits) {
    op.PutOp? && |op.cached.results| <= limits.maxResultSize
  }

  /** One operation of an enabled cache. */
  function Apply<T>(view: View<T>, op: Operation<T>, limits: Limits): View<T> {
    match op
    case GetOp(k, now) => Got(view, k, now)
    case PutOp(k, cached) => if Accepted(op, limits) then Stored(view, Item(k, cached), limits.maxSize) else view
    case InvalidateOp(c) => WithoutClass(view, c)
    case EmptyOp => []
  }

  /** The cache after a history. */
  function After<T>(ops: seq<Operation<T>>, limits: Limits): View<T> {
    if |ops| == 0 then [] else Apply(After(ops[..|ops| - 1], limits), ops[|ops| - 1], limits)
  }

  // ----------------------------------------------------- one operation

  /** Whether an operation, met by this state, takes away the key: expiry, invalidation, or eviction as least recent. */
  predicate Drops<T>(view: View<T>, op: Operation<T>, limits: Limits, key: string) {
    match op
    case GetOp(k, now) => k == key && ValueAt(view, key).Some? && now > ValueAt(view, key).value.expiresAt
    case PutOp(k, _) => Accepted(op, limits) && k != key && Evicts(view, k, limits) && |view| > 0 && view[|view| - 1].key == key
    case InvalidateOp(c) => ValueAt(view, key).Some? && ValueAt(view, key).value.entityClass == c
    case EmptyOp => true
  }

  /** A put of a new key into a full cache. */
  predicate Evicts<T>(view: View<T>, key: string, limits: Limits) {
    Find(view, key) == |view| && |view| >= limits.maxSize
  }

  lemma {:induction false} FindWithoutClass<T>(view: View<T>, c: ClassId, key: string)
    requires Distinct(view)
    ensures var v := ValueAt(view, key);
      ValueAt(WithoutClass(view, c), key) == if v.Some? && v.value.entityClass == c then None else v
  {
    if |view| > 0 {
      FindWithoutClass(view[1..], c, key);
      ValueAtCons(view[0], view[1..], key);
      ValueAtCons(view[0], WithoutClass(view[1..], c), key);
      assert view == [view[0]] + view[1..];
      if view[0].key == key {
        assert forall i :: 0 <= i < |view| - 1 ==> view[1..][i].key != key;
      }
    }
  }

  lemma {:induction false} WithoutClassDistinct<T>(view: View<T>, c: ClassId)
    requires Distinct(view)
    ensures Distinct(WithoutClass(view, c)) && forall i :: 0 <= i < |WithoutClass(view, c)| ==> WithoutClass(view, c)[i] in view
    ensures |WithoutClass(view, c)| <= |view|
  {
    if |view| > 0 {
      WithoutClassDistinct(view[1..], c);
      assert forall i :: 1 <= i < |view| ==> view[i].key != view[0].key;
      var rest := WithoutClass(view[1..], c);
      forall i | 0 <= i < |rest| ensures rest[i].key != view[0].key {
        assert rest[i] in view[1..];
      }
    }
  }

  /** What an operation makes of one key. */
  lemma OneKey<T>(view: View<T>, op: Operation<T>, limits: Limits, key: string)
    requires Distinct(view) && |view| <= limits.maxSize
    ensures ValueAt(Apply(view, op, limits), key) ==
      if Accepted(op, limits) && op.key == key then (if limits.maxSize > 0 then Some(op.cached) else None)
      else if Drops(view, op, limits, key) then None
      else ValueAt(view, key)
  {
    hide Without, WithoutClass, Distinct;
    match op {
      case GetOp(k, now) =>
        ValueWithout(view, k, key);
        var i := Find(view, k);
        if i < |view| { ValueAtCons(view[i], Without(view, k), key); }
      case PutOp(k, cached) =>
        if Accepted(op, limits) { PutKey(view, op, limits, key); }
      case InvalidateOp(c) => FindWithoutClass(view, c, key);
      case EmptyOp =>
    }
  }

  lemma PutKey<T>(view: View<T>, op: Operation<T>, limits: Limits, key: string)
    requires Distinct(view) && |view| <= limits.maxSize && Accepted(op, limits)
    ensures ValueAt(Apply(view, op, limits), key) ==
      if op.key == key then (if limits.maxSize > 0 then Some(op.cached) else None)
      else if Drops(view, op, limits, key) then None
      else ValueAt(view, key)
  {
    var rest := Without(view, op.key);
    var all := [Item(op.key, op.cached)] + rest;
    WithoutDistinct(view, op.key);
    ValueWithout(view, op.key, key);
    ValueAtCons(Item(op.key, op.cached), rest, key);
    assert Distinct(all);
    if |all| > limits.maxSize {
      DropLast(all, key);
      WithoutAbsent(view, op.key);
      assert |rest| > 0 ==> all[|all| - 1] == view[|view| - 1];
    }
  }

  // -------------------------------------------------------- histories

  lemma ApplyKeeps<T>(view: View<T>, op: Operation<T>, limits: Limits)
    requires Distinct(view) && |view| <= limits.maxSize
    ensures var view' := Apply(view, op, limits); Distinct(view') && |view'| <= limits.maxSize
  {
    match op {
      case GetOp(k, _) => WithoutDistinct(view, k);
      case PutOp(k, _) => WithoutDistinct(view, k);
      case InvalidateOp(c) => WithoutClassDistinct(view, c);
      case EmptyOp =>
    }
  }

  lemma {:induction false} AfterKeeps<T>(ops: seq<Operation<T>>, limits: Limits)
    ensures Distinct(After(ops, limits)) && |After(ops, limits)| <= limits.maxSize
  {
    if |ops| > 0 {
      AfterKeeps(ops[..|ops| - 1], limits);
      ApplyKeeps(After(ops[..|ops| - 1], limits), ops[|ops| - 1], limits);
    }
  }

  /** The last accepted put of a key; -1 for none. */
  function LastPut<T>(ops: seq<Operation<T>>, limits: Limits, key: string): (p: int)
    ensures -1 <= p < |ops|
    ensures p >= 0 ==> Accepted(ops[p], limits) && ops[p].key == key
  {
    if |ops| == 0 then -1
    else if Accepted(ops[|ops| - 1], limits) && ops[|ops| - 1].key == key then |ops| - 1
    else LastPut(ops[..|ops| - 1], limits, key)
  }

  /** Nothing since operation p has dropped the key. */
  ghost predicate KeptSince<T>(ops: seq<Operation<T>>, limits: Limits, key: string, p: nat) {
    forall j :: p < j < |ops| ==> !Drops(After(ops[..j], limits), ops[j], limits, key)
  }

  /**
   * The cache holds a key exactly when it was put and nothing since has
   * dropped it - no expired lookup, no invalidation of its class, no
   * eviction - and then with the value of its last put.
   */
  lemma {:induction false} HoldsLastPut<T>(ops: seq<Operation<T>>, limits: Limits, key: string)
    ensures var p, v := LastPut(ops, limits, key), ValueAt(After(ops, limits), key);
      && (v.Some? <==> limits.maxSize > 0 && p >= 0 && KeptSince(ops, limits, key, p))
      && (v.Some? ==> v.value == ops[p].cached)
  {
    hide Apply, Drops, ValueAt;
    if |ops| > 0 {
      var n := |ops| - 1;
      var before := ops[..n];
      HoldsLastPut(before, limits, key);
      AfterKeeps(before, limits);
      OneKey(After(before, limits), ops[n], limits, key);
      assert forall j :: 0 <= j < n ==> before[..j] == ops[..j];
      var p := LastPut(ops, limits, key);
      if p < n && p >= 0 {
        assert KeptSince(ops, limits, key, p) <==> KeptSince(before, limits, key, p) && !Drops(After(before, limits), ops[n], limits, key);
      }
    } else {
      NothingInEmpty<Cached<T>>(key);
    }
  }

  /** A lookup answers with the results of the last put exactly when the key is held and unexpired. */
  lemma GetReturnsLastPut<T>(ops: seq<Operation<T>>, limits: Limits, key: string, now: int)
    ensures var p, r := LastPut(ops, limits, key), Answer(After(ops, limits), key, now);
      && (r.Some? <==> limits.maxSize > 0 && p >= 0 && KeptSince(ops, limits, key, p) && now <= ops[p].cached.expiresAt)
      && (r.Some? ==> r.value == ops[p].cached.results)
  {
    HoldsLastPut(ops, limits, key);
  }

  // ---------------------------------------------------------- recency

  /** An operation uses a key: an accepted put, or a lookup that hits. */
  predicate Uses<T>(view: View<T>, op: Operation<T>, limits: Limits, key: string) {
    match op
    case GetOp(k, now) => k == key && Answer(view, k, now).Some?
    case PutOp(k, _) => Accepted(op, limits) && k == key
    case _ => false
  }

  /** When a key was last used; -1 for never. */
  function LastUse<T>(ops: seq<Operation<T>>, limits: Limits, key: string): (u: int)
    ensures -1 <= u < |ops|
  {
    if |ops| == 0 then -1
    else if Uses(After(ops[..|ops| - 1], limits), ops[|ops| - 1], limits, key) then |ops| - 1
    else LastUse(ops[..|ops| - 1], limits, key)
  }

  lemma {:induction false} WithoutClassFalls<T>(view: View<T>, c: ClassId, rank: string -> int)
    requires Falling(view, rank)
    ensures Falling(WithoutClass(view, c), rank)
    ensures forall i :: 0 <= i < |WithoutClass(view, c)| ==> WithoutClass(view, c)[i] in view
  {
    if |view| > 0 {
      WithoutClassFalls(view[1..], c, rank);
      assert forall x :: x in view[1..] ==> rank(view[0].key) > rank(x.key);
    }
  }

  /** One operation: the key it uses, if any, comes to the front, and the others keep their order. */
  lemma ApplyFalls<T>(view: View<T>, op: Operation<T>, limits: Limits, rank: string -> int, rank': string -> int, n: int)
    requires Distinct(view) && Falling(view, rank)
    requires forall k :: rank(k) < n
    requires forall k :: rank'(k) == if Uses(view, op, limits, k) then n else rank(k)
    ensures Falling(Apply(view, op, limits), rank')
  {
    hide Without, WithoutClass, Find, Distinct;
    match op {
      case GetOp(k, now) =>
        WithoutFalls(view, k, rank);
        WithoutDistinct(view, k);
        OthersFall(Without(view, k), k, rank, rank', n);
      case PutOp(k, _) =>
        WithoutFalls(view, k, rank);
        WithoutDistinct(view, k);
        OthersFall(Without(view, k), k, rank, rank', n);
      case InvalidateOp(c) => WithoutClassFalls(view, c, rank);
      case EmptyOp =>
    }
  }

  /** In every reachable state the entries stand in order of their last use, the most recent first. */
  lemma {:induction false} OrderedByLastUse<T>(ops: seq<Operation<T>>, limits: Limits)
    ensures Falling(After(ops, limits), k => LastUse(ops, limits, k))
  {
    hide Apply, Uses, Distinct;
    if |ops| > 0 {
      var n := |ops| - 1;
      var before := ops[..n];
      OrderedByLastUse(before, limits);
      AfterKeeps(before, limits);
      ApplyFalls(After(before, limits), ops[n], limits, k => LastUse(before, limits, k), k => LastUse(ops, limits, k), n);
    }
  }

  /** So the entry an overflowing put evicts is the one whose last use lies furthest back. */
  lemma EvictsLeastRecent<T>(ops: seq<Operation<T>>, limits: Limits, op: Operation<T>, key: string)
    requires op.PutOp? && ValueAt(After(ops, limits), key).Some? && Drops(After(ops, limits), op, limits, key)
    ensures |After(ops, limits)| == limits.maxSize
    ensures forall i :: 0 <= i < |After(ops, limits)| && After(ops, limits)[i].key != key ==>
      LastUse(ops, limits, After(ops, limits)[i].key) > LastUse(ops, limits, key)
  {
    OrderedByLastUse(ops, limits);
    AfterKeeps(ops, limits);
  }
}
