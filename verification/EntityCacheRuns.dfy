/** Whole histories of the entity cache, over all its classes, on its simple form. */
module EntityCacheRuns {
  import opened Options
  import opened Recency
  import opened EntryList
  import opened EntityCache

  datatype Operation<V> =
    | GetOp(entityClass: ClassId, key: string)
    | PutOp(entityClass: ClassId, key: string, value: V)
    | EvictOp(entityClass: ClassId, key: string)
    | EvictAllOp(entityClass: ClassId)
    | ClearOp

  datatype Limits = Limits(maxSize: nat, maxTotal: nat)

  /** The classes in the order they were met, and the entries of each. */
  datatype State<V> = State(classes: seq<ClassId>, views: Views<V>)

  ghost predicate Fits<V>(view: View<V>, maxSize: nat) {
    Distinct(view) && |view| <= maxSize
  }

  /** What the class keeps: every class once, within its own limit, and all within the limit of the whole. */
  ghost predicate Ready<V>(s: State<V>, limits: Limits) {
    && Covers(s.classes, s.views) && NoRepeats(s.classes) && (forall c :: c in s.classes <==> c in s.views)
    && (forall c :: c in s.views ==> Fits(s.views[c], limits.maxSize))
    && Total(s.classes, s.views) <= limits.maxTotal
  }

  /** The entries of one class. */
  function In<V>(s: State<V>, c: ClassId): View<V> {
    if c in s.views then s.views[c] else []
  }

  /** What is found of a key of a class. */
  function Held<V>(s: State<V>, c: ClassId, key: string): Option<V> {
    ValueAt(In(s, c), key)
  }

  /** The classes after a put, before the limit of the whole. */
  function AfterStore<V>(s: State<V>, op: Operation<V>, limits: Limits): State<V>
    requires op.PutOp?
  {
    State(OpenedClasses(s.classes, op.entityClass), PutInto(s.views, op.entityClass, op.key, op.value, limits.maxSize))
  }

  /** One operation of an enabled cache, as its methods promise. */
  ghost function Step<V>(s: State<V>, op: Operation<V>, limits: Limits): State<V>
    requires Ready(s, limits)
  {
    match op
    case GetOp(c, k) => if c in s.views then s.(views := s.views[c := Touched(s.views[c], k)]) else s
    case PutOp(_, _, _) =>
      StoreCovers(s, op, limits);
      var next := AfterStore(s, op, limits);
      next.(views := Enforced(next.classes, next.views, limits.maxTotal))
    case EvictOp(c, k) => if c in s.views then s.(views := s.views[c := Without(s.views[c], k)]) else s
    case EvictAllOp(c) => if c in s.views then s.(views := s.views[c := []]) else s
    case ClearOp => State([], map[])
  }

  lemma StoreCovers<V>(s: State<V>, op: Operation<V>, limits: Limits)
    requires Ready(s, limits) && op.PutOp?
    ensures var next := AfterStore(s, op, limits);
      && Covers(next.classes, next.views) && NoRepeats(next.classes) && (forall c :: c in next.classes <==> c in next.views)
      && (forall c :: c in next.views ==> Fits(next.views[c], limits.maxSize))
  {
    hide Stored, Total, Without;
    TotalOpened(s.classes, s.views, op.entityClass);
    var view := Opened(s.views, op.entityClass)[op.entityClass];
    StoredFits(view, op.key, op.value, limits.maxSize);
  }

  lemma StoredFits<V>(view: View<V>, key: string, value: V, maxSize: nat)
    requires Fits(view, maxSize)
    ensures Fits(Stored(view, key, value, maxSize), maxSize)
  {
    WithoutDistinct(view, key);
  }

  lemma TouchedFits<V>(view: View<V>, key: string, maxSize: nat)
    requires Fits(view, maxSize)
    ensures Fits(Touched(view, key), maxSize) && |Touched(view, key)| == |view|
  {
    WithoutDistinct(view, key);
  }

  lemma FrontFits<V>(view: View<V>, k: nat, maxSize: nat)
    requires k <= |view| && Fits(view, maxSize)
    ensures Fits(view[..k], maxSize)
  {
  }

  /** A changed class within its limit, and no larger than before. */
  lemma ChangedReady<V>(s: State<V>, c: ClassId, view: View<V>, limits: Limits)
    requires Ready(s, limits) && c in s.views && Fits(view, limits.maxSize) && |view| <= |s.views[c]|
    ensures Ready(s.(views := s.views[c := view]), limits)
  {
    hide Total;
    TotalUpdate(s.classes, s.views, c, view);
  }

  lemma StepReady<V>(s: State<V>, op: Operation<V>, limits: Limits)
    requires Ready(s, limits)
    ensures Ready(Step(s, op, limits), limits)
  {
    hide Touched, Stored, Without, Total, Find, Distinct, Enforced;
    match op {
      case GetOp(c, k) =>
        if c in s.views {
          TouchedFits(s.views[c], k, limits.maxSize);
          ChangedReady(s, c, Touched(s.views[c], k), limits);
        }
      case PutOp(_, _, _) =>
        StoreCovers(s, op, limits);
        var next := AfterStore(s, op, limits);
        EnforcedFits(next.classes, next.views, limits.maxTotal);
        var done := Enforced(next.classes, next.views, limits.maxTotal);
        forall c | c in done ensures Fits(done[c], limits.maxSize) {
          FrontFits(next.views[c], |done[c]|, limits.maxSize);
        }
      case EvictOp(c, k) =>
        if c in s.views {
          WithoutDistinct(s.views[c], k);
          ChangedReady(s, c, Without(s.views[c], k), limits);
        }
      case EvictAllOp(c) =>
        if c in s.views {
          EmptyFits<V>(limits.maxSize);
          ChangedReady(s, c, [], limits);
        }
      case ClearOp => NothingTotal<V>();
    }
  }

  lemma EmptyFits<V>(maxSize: nat)
    ensures Fits<V>([], maxSize)
  {
  }

  lemma NothingTotal<V>()
    ensures Total<V>([], map[]) == 0
  {
  }

  /** The cache after a history. */
  ghost function After<V>(ops: seq<Operation<V>>, limits: Limits): (s: State<V>)
    ensures Ready(s, limits)
  {
    if |ops| == 0 then
      NothingTotal<V>();
      State([], map[])
    else
      var before := After(ops[..|ops| - 1], limits);
      StepReady(before, ops[|ops| - 1], limits);
      Step(before, ops[|ops| - 1], limits)
  }

  // ---------------------------------------------------------- recency

  /** An operation uses a key: a put, or a lookup that finds it. */
  predicate Uses<V>(s: State<V>, op: Operation<V>, c: ClassId, key: string) {
    match op
    case GetOp(d, k) => d == c && k == key && Held(s, c, key).Some?
    case PutOp(d, k, _) => d == c && k == key
    case _ => false
  }

  /** When a key of a class was last used; -1 for never. */
  ghost function LastUse<V>(ops: seq<Operation<V>>, limits: Limits, c: ClassId, key: string): (u: int)
    ensures -1 <= u < |ops|
  {
    if |ops| == 0 then -1
    else if Uses(After(ops[..|ops| - 1], limits), ops[|ops| - 1], c, key) then |ops| - 1
    else LastUse(ops[..|ops| - 1], limits, c, key)
  }

  /** The last use of every key of a class. */
  ghost function LastUses<V>(ops: seq<Operation<V>>, limits: Limits, c: ClassId): string -> int {
    key => LastUse(ops, limits, c, key)
  }

  lemma FrontFalls<V>(view: View<V>, k: nat, rank: string -> int)
    requires k <= |view| && Falling(view, rank)
    ensures Falling(view[..k], rank)
  {
  }

  /** The ranks of the keys of one class, before and after one of them is used at time n. */
  ghost predicate Reranked(rank: string -> int, rank': string -> int, used: Option<string>, n: int) {
    (forall k :: rank(k) < n) && forall k :: rank'(k) == if used == Some(k) then n else rank(k)
  }

  lemma TouchedFalls<V>(view: View<V>, key: string, rank: string -> int, rank': string -> int, n: int)
    requires Distinct(view) && Falling(view, rank)
    requires Reranked(rank, rank', if ValueAt(view, key).Some? then Some(key) else None, n)
    ensures Falling(Touched(view, key), rank')
  {
    hide Without, Find, Distinct;
    WithoutFalls(view, key, rank);
    WithoutDistinct(view, key);
    OthersFall(Without(view, key), key, rank, rank', n);
  }

  /** The key of class c that an operation uses. */
  function Used<V>(s: State<V>, op: Operation<V>, c: ClassId): Option<string> {
    match op
    case GetOp(d, k) => if d == c && Held(s, c, k).Some? then Some(k) else None
    case PutOp(d, k, _) => if d == c then Some(k) else None
    case _ => None
  }

  lemma SameRanks<V>(view: View<V>, rank: string -> int, rank': string -> int, n: int)
    requires Falling(view, rank) && Reranked(rank, rank', None, n)
    ensures Falling(view, rank')
  {
  }

  /** The entries of a class after a put, before any limit takes one. */
  function Unlimited<V>(s: State<V>, op: Operation<V>, c: ClassId): View<V>
    requires op.PutOp?
  {
    if c == op.entityClass then [Item(op.key, op.value)] + Without(In(s, c), op.key) else In(s, c)
  }

  /** The limits leave each class a front part. */
  lemma LimitsLeaveFront<V>(s: State<V>, op: Operation<V>, limits: Limits, c: ClassId)
    requires Ready(s, limits) && op.PutOp?
    ensures var all, left := Unlimited(s, op, c), In(Step(s, op, limits), c); |left| <= |all| && left == all[..|left|]
  {
    hide Without, Total, Find, Enforced, Covers, NoRepeats;
    StoreCovers(s, op, limits);
    var next := AfterStore(s, op, limits);
    EnforcedFits(next.classes, next.views, limits.maxTotal);
    var all, stored, left := Unlimited(s, op, c), In(next, c), In(Step(s, op, limits), c);
    assert |stored| <= |all| && stored == all[..|stored|];
    assert left == stored[..|left|];
  }

  /** The used key comes to the front of its class, and all others keep their order. */
  lemma UnlimitedFalls<V>(s: State<V>, op: Operation<V>, c: ClassId, rank: string -> int, rank': string -> int, n: int)
    requires op.PutOp? && Distinct(In(s, c)) && Falling(In(s, c), rank) && Reranked(rank, rank', Used(s, op, c), n)
    ensures Falling(Unlimited(s, op, c), rank')
  {
    hide Without, Find, Distinct;
    if c == op.entityClass {
      WithoutFalls(In(s, c), op.key, rank);
      WithoutDistinct(In(s, c), op.key);
      OthersFall(Without(In(s, c), op.key), op.key, rank, rank', n);
    } else {
      SameRanks(In(s, c), rank, rank', n);
    }
  }

  lemma ClassDistinct<V>(s: State<V>, limits: Limits, c: ClassId)
    requires Ready(s, limits)
    ensures Distinct(In(s, c)) && |In(s, c)| <= limits.maxSize
  {
    hide Total, Covers, NoRepeats;
  }

  lemma StepFalls<V>(s: State<V>, op: Operation<V>, limits: Limits, c: ClassId, rank: string -> int, rank': string -> int, n: int)
    requires Ready(s, limits) && Falling(In(s, c), rank) && Reranked(rank, rank', Used(s, op, c), n)
    ensures Falling(In(Step(s, op, limits), c), rank')
  {
    hide Touched, Stored, Without, Total, Find, Falling, Reranked, Enforced, Covers, NoRepeats;
    match op {
      case GetOp(d, k) =>
        if d == c && c in s.views { TouchedFalls(s.views[c], k, rank, rank', n); } else { SameRanks(In(s, c), rank, rank', n); }
      case PutOp(_, _, _) =>
        ClassDistinct(s, limits, c);
        UnlimitedFalls(s, op, c, rank, rank', n);
        LimitsLeaveFront(s, op, limits, c);
        FrontFalls(Unlimited(s, op, c), |In(Step(s, op, limits), c)|, rank');
      case EvictOp(d, k) =>
        SameRanks(In(s, c), rank, rank', n);
        WithoutFalls(In(s, c), k, rank');
      case EvictAllOp(d) =>
        SameRanks(In(s, c), rank, rank', n);
        NothingFalls<V>(rank');
      case ClearOp => NothingFalls<V>(rank');
    }
  }

  lemma NothingFalls<V>(rank: string -> int)
    ensures Falling<V>([], rank)
  {
  }

  lemma LastUsesStep<V>(ops: seq<Operation<V>>, limits: Limits, c: ClassId)
    requires |ops| > 0
    ensures var n := |ops| - 1; var before := After(ops[..n], limits);
      Reranked(LastUses(ops[..n], limits, c), LastUses(ops, limits, c), Used(before, ops[n], c), n)
  {
    hide After, Held, In;
  }

  /** In every reachable state the entries of every class stand in order of their last use, the most recent first. */
  lemma {:induction false} OrderedByLastUse<V>(ops: seq<Operation<V>>, limits: Limits, c: ClassId)
    ensures Falling(In(After(ops, limits), c), LastUses(ops, limits, c))
  {
    hide Step, Falling, Reranked, Ready, LastUses;
    if |ops| > 0 {
      var n := |ops| - 1;
      OrderedByLastUse(ops[..n], limits, c);
      LastUsesStep(ops, limits, c);
      StepFalls(After(ops[..n], limits), ops[n], limits, c, LastUses(ops[..n], limits, c), LastUses(ops, limits, c), n);
    } else {
      NothingFalls<V>(LastUses(ops, limits, c));
    }
  }

  /** What a limit takes from a class was used less recently than all it leaves there. */
  lemma TakesLeastRecent<V>(ops: seq<Operation<V>>, limits: Limits, c: ClassId, key: string)
    requires |ops| > 0 && ops[|ops| - 1].PutOp?
    requires ValueAt(Unlimited(After(ops[..|ops| - 1], limits), ops[|ops| - 1], c), key).Some? && Held(After(ops, limits), c, key).None?
    ensures var left := In(After(ops, limits), c);
      forall i :: 0 <= i < |left| ==> LastUse(ops, limits, c, left[i].key) > LastUse(ops, limits, c, key)
  {
    hide Step, Reranked, LastUse, Unlimited, AfterStore;
    var n := |ops| - 1;
    var before, op, ranks := After(ops[..n], limits), ops[n], LastUses(ops, limits, c);
    OrderedByLastUse(ops[..n], limits, c);
    LastUsesStep(ops, limits, c);
    ClassDistinct(before, limits, c);
    UnlimitedFalls(before, op, c, LastUses(ops[..n], limits, c), ranks, n);
    LimitsLeaveFront(before, op, limits, c);
    var all, left := Unlimited(before, op, c), In(After(ops, limits), c);
    BehindFront(all, |left|, key);
    forall j | 0 <= j < |left| ensures ranks(left[j].key) > ranks(key) {
      assert left[j] == all[j];
    }
  }

  lemma BehindFront<V>(view: View<V>, k: nat, key: string)
    requires k <= |view| && ValueAt(view, key).Some? && ValueAt(view[..k], key).None?
    ensures k <= Find(view, key) < |view|
  {
    assert forall m :: 0 <= m < k ==> view[..k][m] == view[m];
  }

  // ------------------------------------------------------------ values

  /** The key is taken out on request. */
  predicate Removes<V>(op: Operation<V>, c: ClassId, key: string) {
    match op
    case EvictOp(d, k) => d == c && k == key
    case EvictAllOp(d) => d == c
    case ClearOp => true
    case _ => false
  }

  /** A new entry where there is no room: in its class, or in all classes together. */
  predicate Full<V>(s: State<V>, op: Operation<V>, limits: Limits, c: ClassId)
    requires Covers(s.classes, s.views)
  {
    && op.PutOp? && Held(s, op.entityClass, op.key).None?
    && ((op.entityClass == c && |In(s, c)| == limits.maxSize) || Total(s.classes, s.views) == limits.maxTotal)
  }

  /** What a key has before the limits are applied. */
  function Offered<V>(s: State<V>, op: Operation<V>, c: ClassId, key: string): Option<V> {
    if op.PutOp? && op.entityClass == c && op.key == key then Some(op.value)
    else if Removes(op, c, key) then None
    else Held(s, c, key)
  }

  lemma UnlimitedValue<V>(s: State<V>, op: Operation<V>, c: ClassId, key: string)
    requires op.PutOp?
    ensures ValueAt(Unlimited(s, op, c), key) == Offered(s, op, c, key)
  {
    hide Without, Find;
    ValueWithout(In(s, c), op.key, key);
    ValueAtCons(Item(op.key, op.value), Without(In(s, c), op.key), key);
  }

  lemma FrontValue<V>(view: View<V>, k: nat, key: string)
    requires k <= |view|
    ensures ValueAt(view[..k], key) == None || ValueAt(view[..k], key) == ValueAt(view, key)
  {
    var i, j := Find(view[..k], key), Find(view, key);
    assert forall m :: 0 <= m < k ==> view[..k][m] == view[m];
    if i < k { assert i == j; }
  }

  lemma TouchedValue<V>(view: View<V>, k: string, key: string)
    ensures ValueAt(Touched(view, k), key) == ValueAt(view, key)
  {
    hide Without;
    var i := Find(view, k);
    if i < |view| {
      ValueWithout(view, k, key);
      ValueAtCons(view[i], Without(view, k), key);
    }
  }

  /** One operation: nothing but a limit comes between what a key is offered and what it has afterwards. */
  lemma OneKey<V>(s: State<V>, op: Operation<V>, limits: Limits, c: ClassId, key: string)
    requires Ready(s, limits)
    ensures Held(Step(s, op, limits), c, key) == Offered(s, op, c, key) || (op.PutOp? && Held(Step(s, op, limits), c, key) == None)
  {
    hide Touched, Without, Total, Find, Enforced, Covers, NoRepeats, AfterStore, Distinct;
    match op {
      case GetOp(d, k) => if d == c { TouchedValue(In(s, c), k, key); }
      case PutOp(_, _, _) =>
        LimitsLeaveFront(s, op, limits, c);
        UnlimitedValue(s, op, c, key);
        FrontValue(Unlimited(s, op, c), |In(Step(s, op, limits), c)|, key);
      case EvictOp(d, k) => if d == c { ValueWithout(In(s, c), k, key); }
      case EvictAllOp(_) => NothingInEmpty<V>(key);
      case ClearOp => NothingInEmpty<V>(key);
    }
  }

  /** Where there is room, a put takes nothing from anywhere. */
  lemma RoomKeepsAll<V>(s: State<V>, op: Operation<V>, limits: Limits, c: ClassId)
    requires Ready(s, limits) && op.PutOp? && !Full(s, op, limits, c)
    ensures In(Step(s, op, limits), c) == Unlimited(s, op, c)
  {
    hide Without, Total, Find, Enforced, Covers, NoRepeats, Distinct;
    StoreCovers(s, op, limits);
    var next := AfterStore(s, op, limits);
    var view := In(s, op.entityClass);
    ClassDistinct(s, limits, op.entityClass);
    WithoutDistinct(view, op.key);
    TotalOpened(s.classes, s.views, op.entityClass);
    TotalUpdate(next.classes, Opened(s.views, op.entityClass), op.entityClass, In(next, op.entityClass));
    SizeFound(view, op.key);
    EntityCache.EnforcedDone(next.classes, next.views, limits.maxTotal);
  }

  lemma SizeFound<V>(view: View<V>, key: string)
    ensures ValueAt(view, key).None? <==> Find(view, key) == |view|
  {
  }

  /** The last put of a key of a class; -1 for none. */
  function LastPut<V>(ops: seq<Operation<V>>, c: ClassId, key: string): (p: int)
    ensures -1 <= p < |ops|
    ensures p >= 0 ==> ops[p].PutOp? && ops[p].entityClass == c && ops[p].key == key
  {
    if |ops| == 0 then -1
    else
      var op := ops[|ops| - 1];
      if op.PutOp? && op.entityClass == c && op.key == key then |ops| - 1 else LastPut(ops[..|ops| - 1], c, key)
  }

  predicate RemovedSince<V>(ops: seq<Operation<V>>, c: ClassId, key: string, p: nat) {
    exists j :: p < j < |ops| && Removes(ops[j], c, key)
  }

  /** Some put since found no room. */
  ghost predicate FullSince<V>(ops: seq<Operation<V>>, limits: Limits, c: ClassId, p: nat) {
    exists j :: p <= j < |ops| && Full(After(ops[..j], limits), ops[j], limits, c)
  }

  /**
   * A lookup finds nothing but the value that was last put, and only if it
   * was not removed since; and what was put and not removed is found unless
   * some put since found no room.
   */
  lemma {:induction false} FindsLastPut<V>(ops: seq<Operation<V>>, limits: Limits, c: ClassId, key: string)
    ensures var p, v := LastPut(ops, c, key), Held(After(ops, limits), c, key);
      && (v.Some? ==> p >= 0 && v.value == ops[p].value && !RemovedSince(ops, c, key, p))
      && (p >= 0 && !RemovedSince(ops, c, key, p) && !FullSince(ops, limits, c, p) ==> v.Some?)
  {
    hide Step, Held, Full, Removes, RemovedSince, FullSince, Ready;
    if |ops| > 0 {
      var n := |ops| - 1;
      FindsLastPut(ops[..n], limits, c, key);
      OneStepFinds(After(ops[..n], limits), ops[n], limits, c, key);
      SinceThen(ops, limits, c, key, LastPut(ops, c, key));
    } else {
      NothingHeld<V>(c, key);
    }
  }

  /** What happened since includes what the last operation is. */
  lemma SinceThen<V>(ops: seq<Operation<V>>, limits: Limits, c: ClassId, key: string, p: int)
    requires |ops| > 0 && p < |ops|
    ensures var n := |ops| - 1;
      && (0 <= p < n ==> (RemovedSince(ops, c, key, p) <==> RemovedSince(ops[..n], c, key, p) || Removes(ops[n], c, key)))
      && (0 <= p < n ==> (FullSince(ops, limits, c, p) <==> FullSince(ops[..n], limits, c, p) || Full(After(ops[..n], limits), ops[n], limits, c)))
      && (p == n ==> !RemovedSince(ops, c, key, p) && (FullSince(ops, limits, c, p) <==> Full(After(ops[..n], limits), ops[n], limits, c)))
  {
    hide After, Full, Removes;
    var n := |ops| - 1;
    assert forall j :: 0 <= j < n ==> ops[..n][j] == ops[j] && ops[..n][..j] == ops[..j];
  }

  lemma NothingHeld<V>(c: ClassId, key: string)
    ensures Held<V>(State([], map[]), c, key) == None
  {
  }

  lemma OneStepFinds<V>(s: State<V>, op: Operation<V>, limits: Limits, c: ClassId, key: string)
    requires Ready(s, limits)
    ensures var v := Held(Step(s, op, limits), c, key);
      if op.PutOp? && op.entityClass == c && op.key == key then v == Some(op.value) || (v == None && Full(s, op, limits, c))
      else if Removes(op, c, key) then v == None
      else v == Held(s, c, key) || (v == None && Full(s, op, limits, c))
  {
    hide Step, Full, Unlimited, Held, In, Distinct, Total, NoRepeats;
    OneKey(s, op, limits, c, key);
    if op.PutOp? && !Full(s, op, limits, c) {
      RoomKeepsAll(s, op, limits, c);
      UnlimitedValue(s, op, c, key);
      HeldIn(Step(s, op, limits), c, key);
    }
  }

  lemma HeldIn<V>(s: State<V>, c: ClassId, key: string)
    ensures Held(s, c, key) == ValueAt(In(s, c), key)
  {
  }
}
