/** The query batcher: lookups of one tick collected into batches, under any interleaving of calls, tasks and query answers. */
module QueryBatcher {
  import opened Options
  import opened BatchChunk

  /** The requests of all running batches that are still to be answered. */
  function InFlight(active: seq<seq<Request>>): multiset<Request> {
    if |active| == 0 then multiset{} else InFlight(active[..|active| - 1]) + multiset(active[|active| - 1])
  }

  lemma InFlightSnoc(active: seq<seq<Request>>, batch: seq<Request>)
    ensures InFlight(active + [batch]) == InFlight(active) + multiset(batch)
  {
    assert (active + [batch])[..|active|] == active;
  }

  lemma {:induction false} InFlightUpdate(active: seq<seq<Request>>, k: nat, batch: seq<Request>)
    requires k < |active|
    ensures InFlight(active[k := batch]) + multiset(active[k]) == InFlight(active) + multiset(batch)
  {
    var n := |active| - 1;
    if k == n {
      assert active[k := batch] == active[..n] + [batch];
      InFlightSnoc(active[..n], batch);
    } else {
      InFlightUpdate(active[..n], k, batch);
      assert active[..n][k] == active[k] && active[k := batch][n] == active[n];
      assert active[k := batch] == active[..n][k := batch] + [active[n]];
      InFlightSnoc(active[..n][k := batch], active[n]);
      var last, before, after := multiset(active[n]), InFlight(active[..n]), InFlight(active[..n][k := batch]);
      assert (after + last) + multiset(active[k]) == (after + multiset(active[k])) + last;
      assert (before + last) + multiset(batch) == (before + multiset(batch)) + last;
    }
  }

  lemma Cancel(a: multiset<Request>, b: multiset<Request>, c: multiset<Request>)
    requires a + c == b + c
    ensures a == b
  {
    forall r ensures a[r] == b[r] {
      assert (a + c)[r] == (b + c)[r];
    }
  }

  lemma {:induction false} InFlightDrop(active: seq<seq<Request>>, k: nat)
    requires k < |active|
    ensures InFlight(active[..k] + active[k + 1..]) + multiset(active[k]) == InFlight(active)
  {
    var n := |active| - 1;
    if k == n {
      assert active[..k] + active[k + 1..] == active[..n];
    } else {
      InFlightDrop(active[..n], k);
      assert active[..k] + active[k + 1..] == active[..n][..k] + active[..n][k + 1..] + [active[n]];
      InFlightSnoc(active[..n][..k] + active[..n][k + 1..], active[n]);
    }
  }

  function FirstChunk(batch: seq<Request>, maxBatchSize: nat): seq<Request> {
    if |batch| <= maxBatchSize then batch else batch[..maxBatchSize]
  }

  /** The active batches once the first chunk of one of them is answered. */
  function AfterChunk(active: seq<seq<Request>>, k: nat, maxBatchSize: nat): seq<seq<Request>>
    requires k < |active|
  {
    if |active[k]| <= maxBatchSize then active[..k] + active[k + 1..] else active[k := active[k][maxBatchSize..]]
  }

  lemma ChunkLeaves(active: seq<seq<Request>>, k: nat, maxBatchSize: nat)
    requires k < |active| && maxBatchSize >= 1 && forall i :: 0 <= i < |active| ==> active[i] != []
    ensures var rest := AfterChunk(active, k, maxBatchSize);
      && InFlight(rest) + multiset(FirstChunk(active[k], maxBatchSize)) == InFlight(active)
      && |InFlight(rest)| < |InFlight(active)|
      && forall i :: 0 <= i < |rest| ==> rest[i] != []
  {
    hide InFlight;
    var chunk := FirstChunk(active[k], maxBatchSize);
    assert active[k] == chunk + active[k][|chunk|..];
    if |active[k]| <= maxBatchSize {
      InFlightDrop(active, k);
    } else {
      var tail := active[k][maxBatchSize..];
      InFlightUpdate(active, k, tail);
      var rest := InFlight(active[k := tail]);
      assert (rest + multiset(chunk)) + multiset(tail) == rest + multiset(active[k]);
      Cancel(rest + multiset(chunk), InFlight(active), multiset(tail));
    }
    assert |multiset(chunk)| > 0;
    assert |InFlight(AfterChunk(active, k, maxBatchSize)) + multiset(chunk)| == |InFlight(active)|;
  }

  lemma {:induction false} InFlightHas(active: seq<seq<Request>>, k: nat, r: Request)
    requires k < |active| && r in active[k]
    ensures InFlight(active)[r] > 0
  {
    InFlightDrop(active, k);
  }

  lemma {:induction false} InFlightFrom(active: seq<seq<Request>>, r: Request) returns (k: nat)
    requires InFlight(active)[r] > 0
    ensures k < |active| && r in active[k]
  {
    var n := |active| - 1;
    if r in active[n] {
      k := n;
    } else {
      k := InFlightFrom(active[..n], r);
    }
  }

  /** No request twice in two batches, when none is in flight twice. */
  lemma InFlightOnce(active: seq<seq<Request>>, i: nat, j: nat, r: Request)
    requires i < j < |active| && r in active[i] && r in active[j]
    ensures InFlight(active)[r] >= 2
  {
    InFlightDrop(active, i);
    var rest := active[..i] + active[i + 1..];
    assert rest[j - 1] == active[j];
    InFlightHas(rest, j - 1, r);
  }

  class QueryBatcher<T> {
    const maxBatchSize: nat
    const hasIdColumn: bool
    var pending: seq<Request>
    var scheduled: bool
    var calls: nat
    /** The tasks in the microtask queue, and the batches whose queries are under way. */
    var queued: nat
    var active: seq<seq<Request>>
    /** Every call of load so far, and every answer given, in order. */
    ghost var issued: seq<Request>
    ghost var settled: seq<Settlement<T>>

    /** What was issued is what is pending, in flight or settled. */
    static ghost predicate Conserved(pending: seq<Request>, active: seq<seq<Request>>, settled: seq<Settlement<T>>, issued: seq<Request>) {
      multiset(pending) + InFlight(active) + multiset(Requests(settled)) == multiset(issued)
    }

    /** Every request is in exactly one of pending, an active batch or settled; pending ones have a task waiting for them. */
    ghost predicate Valid()
      reads this
    {
      && maxBatchSize >= 1 && calls == |issued|
      && (forall i :: 0 <= i < |issued| ==> issued[i].ticket == i)
      && Conserved(pending, active, settled, issued)
      && (scheduled <==> pending != []) && queued == (if scheduled then 1 else 0)
      && (forall k :: 0 <= k < |active| ==> active[k] != [])
    }

    constructor (maxBatchSize: nat, hasIdColumn: bool)
      requires maxBatchSize >= 1
      ensures Valid() && issued == [] && pending == [] && active == [] && settled == []
    {
      this.maxBatchSize, this.hasIdColumn := maxBatchSize, hasIdColumn;
      pending, scheduled, calls, queued, active, issued, settled := [], false, 0, 0, [], [], [];
    }

    /** The steps still to be taken when no more requests come in. */
    ghost function Work(): nat
      reads this
    {
      2 * |pending| + |InFlight(active)| + queued
    }

    /** Exactly one of the three places holds a request, and each holds it once. */
    lemma ExactlyOnePlace(r: Request)
      requires Valid() && r in issued
      ensures multiset(pending)[r] + InFlight(active)[r] + multiset(Requests(settled))[r] == 1
      ensures r in pending <==> InFlight(active)[r] == 0 && r !in Requests(settled)
      ensures (exists k :: 0 <= k < |active| && r in active[k]) <==> r !in pending && r !in Requests(settled)
      ensures forall i, j :: 0 <= i < j < |active| ==> !(r in active[i] && r in active[j])
    {
      OnceEach(issued, r);
      assert multiset(issued)[r] == 1;
      if InFlight(active)[r] > 0 {
        var k := InFlightFrom(active, r);
      }
      forall k | 0 <= k < |active| && r in active[k] ensures InFlight(active)[r] > 0 {
        InFlightHas(active, k, r);
      }
      forall i, j | 0 <= i < j < |active| ensures !(r in active[i] && r in active[j]) {
        NotInBoth(active, i, j, r);
      }
    }

    static lemma NotInBoth(active: seq<seq<Request>>, i: nat, j: nat, r: Request)
      requires i < j < |active| && InFlight(active)[r] <= 1
      ensures !(r in active[i] && r in active[j])
    {
      if r in active[i] && r in active[j] {
        InFlightOnce(active, i, j, r);
      }
    }

    static lemma {:induction false} OnceEach(issued: seq<Request>, r: Request)
      requires forall i :: 0 <= i < |issued| ==> issued[i].ticket == i
      requires r in issued
      ensures multiset(issued)[r] == 1
    {
      var n := |issued| - 1;
      assert issued == issued[..n] + [issued[n]];
      if r in issued[..n] {
        OnceEach(issued[..n], r);
      }
    }

    static lemma OneMore(pending: seq<Request>, active: seq<seq<Request>>, settled: seq<Settlement<T>>, issued: seq<Request>, r: Request)
      requires Conserved(pending, active, settled, issued)
      ensures Conserved(pending + [r], active, settled, issued + [r])
    {
      assert multiset(pending + [r]) == multiset(pending) + multiset{r} && multiset(issued + [r]) == multiset(issued) + multiset{r};
    }

    /** A call of load: the request waits, and a task is queued unless one is already. */
    method Load(id: Id) returns (ticket: nat)
      requires Valid()
      modifies this
      ensures Valid() && active == old(active) && settled == old(settled)
      ensures issued == old(issued) + [Request(ticket, id)] && pending == old(pending) + [Request(ticket, id)]
      ensures ticket == |old(issued)| && queued == 1
    {
      hide Conserved;
      ticket, calls := calls, calls + 1;
      var request := Request(ticket, id);
      OneMore(pending, active, settled, issued, request);
      pending := pending + [request];
      issued := issued + [request];
      if !scheduled {
        scheduled := true;
        queued := queued + 1;
      }
    }

    /** A queued task runs: all that is pending becomes a batch. */
    method StartBatch()
      requires Valid() && queued > 0
      modifies this
      ensures Valid() && issued == old(issued) && settled == old(settled) && pending == []
      ensures active == old(active) + [old(pending)]
      ensures Work() < old(Work())
    {
      InFlightSnoc(active, pending);
      queued := queued - 1;
      var batch := pending;
      pending := [];
      scheduled := false;
      active := active + [batch];
    }

    /** The query of a batch's current chunk has come back: the chunk is answered, and the batch goes on with the rest. */
    method FinishChunk(k: nat, database: Database<T>) returns (log: seq<Settlement<T>>)
      requires Valid() && k < |active|
      modifies this
      ensures Valid() && issued == old(issued) && pending == old(pending) && queued == old(queued)
      ensures multiset(Requests(log)) == multiset(FirstChunk(old(active)[k], maxBatchSize))
      ensures active == AfterChunk(old(active), k, maxBatchSize)
      ensures settled == old(settled) + log && log == Settled(Requests(log), database, hasIdColumn)
      ensures hasIdColumn && database.Available? ==>
        forall i :: 0 <= i < |log| ==> Serves(database.table, log[i].request.id, log[i].answer)
      ensures Work() < old(Work())
    {
      hide Settled, InFlight;
      ChunkLeaves(active, k, maxBatchSize);
      var batch := active[k];
      log := ExecuteChunk(FirstChunk(batch, maxBatchSize), database, hasIdColumn);
      RequestsConcat(settled, log);
      hide Requests, FirstChunk;
      settled := settled + log;
      active := if |batch| <= maxBatchSize then active[..k] + active[k + 1..] else active[k := batch[maxBatchSize..]];
    }

    static lemma RequestsConcat(a: seq<Settlement<T>>, b: seq<Settlement<T>>)
      ensures Requests(a + b) == Requests(a) + Requests(b)
    {
    }

    /** What a direct lookup would answer in one of the states the table goes through. */
    ghost predicate AnsweredFrom(states: seq<Database<T>>, s: Settlement<T>) {
      exists j :: 0 <= j < |states| && AnsweredIn(states[j], s)
    }

    /** The row that is asked for, if the table can be read; else the error. */
    ghost predicate AnsweredIn(state: Database<T>, s: Settlement<T>) {
      if !hasIdColumn then s.answer == Err("Cannot find ID column")
      else if state.Failing? then s.answer == Err(state.error)
      else Serves(state.table, s.request.id, s.answer)
    }

    /** Runs everything that is under way and everything asked for meanwhile, in an order nobody controls, on a table that changes
        between the queries: all requests are settled, each once. */
    method Drain(arrivals: seq<Id>, states: seq<Database<T>>)
      requires Valid() && |states| > 0
      modifies this
      ensures Valid() && pending == [] && active == [] && queued == 0
      ensures |issued| == |old(issued)| + |arrivals| && old(issued) <= issued
      ensures forall i :: 0 <= i < |arrivals| ==> issued[|old(issued)| + i].id == arrivals[i]
      ensures multiset(Requests(settled)) == multiset(issued)
      ensures old(settled) <= settled
      ensures forall i :: |old(settled)| <= i < |settled| ==> AnsweredFrom(states, settled[i])
    {
      hide Settled, InFlight, Valid, Requests, AnsweredFrom, Work, FirstChunk;
      var next := 0;
      while next < |arrivals| || queued > 0 || active != []
        invariant Valid() && next <= |arrivals| && old(settled) <= settled
        invariant |issued| == |old(issued)| + next && old(issued) <= issued
        invariant forall i :: 0 <= i < next ==> issued[|old(issued)| + i].id == arrivals[i]
        invariant forall i :: |old(settled)| <= i < |settled| ==> AnsweredFrom(states, settled[i])
        decreases |arrivals| - next, Work()
      {
        var loadFirst: bool, startFirst: bool := *, *;
        if next < |arrivals| && (loadFirst || (queued == 0 && active == [])) {
          var ticket := Load(arrivals[next]);
          next := next + 1;
        } else if queued > 0 && (startFirst || active == []) {
          StartBatch();
        } else {
          var k: nat :| k < |active|;
          var j: nat :| j < |states|;
          var log := FinishChunk(k, states[j]);
          AllAnswered(log, states, j);
        }
      }
      AtRest();
    }

    lemma AtRest()
      requires Valid() && queued == 0 && active == []
      ensures pending == [] && multiset(Requests(settled)) == multiset(issued)
    {
      NoneInFlight(active);
      assert multiset(pending) == multiset{};
    }

    lemma AllAnswered(log: seq<Settlement<T>>, states: seq<Database<T>>, j: nat)
      requires j < |states| && log == Settled(Requests(log), states[j], hasIdColumn)
      ensures forall i :: 0 <= i < |log| ==> AnsweredFrom(states, log[i])
    {
      hide Serves;
      forall i | 0 <= i < |log| ensures AnsweredIn(states[j], log[i]) {
        if states[j].Available? { DirectServes(states[j].table, log[i].request.id); }
      }
    }

    static lemma NoneInFlight(active: seq<seq<Request>>)
      ensures active == [] ==> InFlight(active) == multiset{}
    {
    }
  }
}
