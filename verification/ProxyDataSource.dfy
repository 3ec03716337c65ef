/** The connection pool of the serverless proxy, as steps between its awaits. */
module ProxyDataSource {

  /** An idle connection; connections are numbered in the order they are created. */
  datatype Pooled = Pooled(connection: nat, lastUsed: int)

  function Connections(pool: seq<Pooled>): (cs: set<nat>)
    ensures forall i :: 0 <= i < |pool| ==> pool[i].connection in cs
    ensures forall c :: c in cs ==> exists i :: 0 <= i < |pool| && pool[i].connection == c
  {
    set p | p in pool :: p.connection
  }

  predicate NoDuplicates(pool: seq<Pooled>) {
    forall i, j :: 0 <= i < j < |pool| ==> pool[i].connection != pool[j].connection
  }

  // -------------------------------------------------- what the loops do

  /** The pool without the dead connections at its end. */
  function Trimmed(pool: seq<Pooled>, dead: set<nat>): seq<Pooled> {
    if |pool| > 0 && pool[|pool| - 1].connection in dead then Trimmed(pool[..|pool| - 1], dead) else pool
  }

  lemma {:induction false} TrimmedIsLongest(pool: seq<Pooled>, dead: set<nat>)
    ensures var rest := Trimmed(pool, dead);
      && rest <= pool && (rest != [] ==> rest[|rest| - 1].connection !in dead)
      && forall i :: |rest| <= i < |pool| ==> pool[i].connection in dead
  {
    if |pool| > 0 && pool[|pool| - 1].connection in dead {
      TrimmedIsLongest(pool[..|pool| - 1], dead);
    }
  }

  lemma TrimmedOnce(pool: seq<Pooled>, dead: set<nat>)
    ensures |pool| > 0 && pool[|pool| - 1].connection in dead ==> Trimmed(pool, dead) == Trimmed(pool[..|pool| - 1], dead)
    ensures |pool| == 0 || pool[|pool| - 1].connection !in dead ==> Trimmed(pool, dead) == pool
  {
  }

  predicate Stale(p: Pooled, now: int, maxIdle: int, dead: set<nat>) {
    now - p.lastUsed > maxIdle || p.connection in dead
  }

  /** The connections worth keeping, in order. */
  function Fresh(pool: seq<Pooled>, now: int, maxIdle: int, dead: set<nat>): (kept: seq<Pooled>)
    ensures |kept| <= |pool|
    ensures forall p :: p in kept <==> p in pool && !Stale(p, now, maxIdle, dead)
  {
    if |pool| == 0 then []
    else
      var n := |pool| - 1;
      Fresh(pool[..n], now, maxIdle, dead) + if Stale(pool[n], now, maxIdle, dead) then [] else [pool[n]]
  }

  lemma {:induction false} FreshSnoc(pool: seq<Pooled>, p: Pooled, now: int, maxIdle: int, dead: set<nat>)
    ensures Fresh(pool + [p], now, maxIdle, dead) == Fresh(pool, now, maxIdle, dead) + if Stale(p, now, maxIdle, dead) then [] else [p]
  {
    assert (pool + [p])[..|pool|] == pool;
  }

  /** The pool after a wrapper's close(). */
  function Returned(pool: seq<Pooled>, connection: nat, now: int, closed: bool, maxConnections: nat, dead: set<nat>): seq<Pooled> {
    if closed || connection in dead || |pool| >= maxConnections then pool else pool + [Pooled(connection, now)]
  }

  /** A further close() of the same wrapper, wherever its connection has gone since: then the connection is twice in the pool, or in it
      while it is lent again, validated or given up. That does not happen exactly when the pool is closed or full, or the connection dead. */
  lemma SecondCloseDuplicates(pool: seq<Pooled>, elsewhere: set<nat>, connection: nat, now: int, closed: bool, maxConnections: nat, dead: set<nat>)
    requires NoDuplicates(pool) && Connections(pool) !! elsewhere && connection in Connections(pool) + elsewhere
    ensures var after := Returned(pool, connection, now, closed, maxConnections, dead);
      NoDuplicates(after) && Connections(after) !! elsewhere <==> closed || connection in dead || |pool| >= maxConnections
  {
    var after := Returned(pool, connection, now, closed, maxConnections, dead);
    if |after| > |pool| {
      assert after[|pool|].connection in Connections(after);
      if connection in Connections(pool) {
        var i :| 0 <= i < |pool| && pool[i].connection == connection;
        assert after[i].connection == after[|pool|].connection;
      }
    }
  }

  // ----------------------------------------------------- the loans so far

  datatype Event = LentOut(connection: nat) | GivenBack(connection: nat)

  function Loans(history: seq<Event>): set<nat> {
    if |history| == 0 then {}
    else
      var n := |history| - 1;
      if history[n].LentOut? then Loans(history[..n]) + {history[n].connection} else Loans(history[..n]) - {history[n].connection}
  }

  /** Only what is not on loan is lent, and only what is on loan is given back. */
  predicate Alternating(history: seq<Event>) {
    forall i :: 0 <= i < |history| ==> (history[i].LentOut? <==> history[i].connection !in Loans(history[..i]))
  }

  lemma LoansSnoc(history: seq<Event>, e: Event)
    ensures Loans(history + [e]) == if e.LentOut? then Loans(history) + {e.connection} else Loans(history) - {e.connection}
    ensures Alternating(history) && (e.LentOut? <==> e.connection !in Loans(history)) ==> Alternating(history + [e])
  {
    var longer := history + [e];
    assert longer[..|history|] == history;
    forall i | 0 <= i < |history| ensures longer[..i] == history[..i] && longer[i] == history[i] {}
  }

  /** A connection on loan stays so until it is given back. */
  lemma {:induction false} LoanLasts(history: seq<Event>, i: nat, j: nat)
    requires i < j <= |history| && history[i].LentOut?
    requires forall k :: i < k < j ==> history[k] != GivenBack(history[i].connection)
    ensures history[i].connection in Loans(history[..j])
    decreases j
  {
    assert history[..j][..j - 1] == history[..j - 1];
    if j > i + 1 {
      LoanLasts(history, i, j - 1);
    }
  }

  /** Where a call of getConnection stands when it next waits, or ends. */
  datatype Progress =
    | Refused
    | Dropping(connection: nat)
    | Checking(connection: nat)
    | Lent(connection: nat)
    | Creating
    | Failed

  /** What becomes of the connection at the end of the pool. */
  function Next(usable: seq<Pooled>, now: int, maxIdle: int, validate: bool): Progress {
    if usable == [] then Creating
    else
      var p := usable[|usable| - 1];
      if now - p.lastUsed > maxIdle then Dropping(p.connection)
      else if validate then Checking(p.connection)
      else Lent(p.connection)
  }

  /** Connection i is live, and all behind it are dead. */
  predicate LastLive(pool: seq<Pooled>, dead: set<nat>, i: nat) {
    i < |pool| && pool[i].connection !in dead && forall j :: i < j < |pool| ==> pool[j].connection in dead
  }

  /** A connection is lent unvalidated, or validated first, as configured, but only if it was not idle too long; else it is dropped;
      and a new one is asked for only when there is no live one. */
  predicate Chosen(pool: seq<Pooled>, dead: set<nat>, now: int, maxIdle: int, validate: bool, r: Progress) {
    match r
    case Lent(c) =>
      !validate && exists i :: 0 <= i < |pool| && LastLive(pool, dead, i) && pool[i].connection == c && now <= pool[i].lastUsed + maxIdle
    case Checking(c) =>
      validate && exists i :: 0 <= i < |pool| && LastLive(pool, dead, i) && pool[i].connection == c && now <= pool[i].lastUsed + maxIdle
    case Dropping(c) => exists i :: 0 <= i < |pool| && LastLive(pool, dead, i) && pool[i].connection == c && now > pool[i].lastUsed + maxIdle
    case Creating => forall i :: 0 <= i < |pool| ==> pool[i].connection in dead
    case _ => false
  }

  lemma NextChosen(pool: seq<Pooled>, dead: set<nat>, now: int, maxIdle: int, validate: bool)
    ensures Chosen(pool, dead, now, maxIdle, validate, Next(Trimmed(pool, dead), now, maxIdle, validate))
  {
    hide Trimmed;
    var rest := Trimmed(pool, dead);
    TrimmedIsLongest(pool, dead);
    if rest != [] {
      assert LastLive(pool, dead, |rest| - 1) && pool[|rest| - 1] == rest[|rest| - 1];
    }
  }

  function Popped(pool: seq<Pooled>): seq<Pooled> {
    if pool == [] then [] else pool[..|pool| - 1]
  }

  class ProxyDataSource {
    const maxConnections: nat
    const maxIdleTimeMs: int
    const validateOnBorrow: bool
    var pool: seq<Pooled>
    var closed: bool
    /** The connections made so far; those being validated, held by callers, and given up. */
    var created: nat
    var checking: set<nat>
    var lent: set<nat>
    var gone: set<nat>
    /** The connections that report isClosed(), wherever they are. */
    var dead: set<nat>
    /** The calls of getConnection that wait for a close, and for a new connection. */
    var dropping: nat
    var creating: nat
    /** Every loan and every return, in order. */
    ghost var history: seq<Event>

    ghost predicate Apart()
      reads `pool, `created, `checking, `lent, `gone
    {
      && Connections(pool) !! checking && Connections(pool) !! lent && Connections(pool) !! gone
      && checking !! lent && checking !! gone && lent !! gone
      && forall c: nat :: c < created <==> c in Connections(pool) || c in checking || c in lent || c in gone
    }

    /** What is on loan is what the history says, and no one was lent what another held. */
    ghost predicate Recorded()
      reads `lent, `history
    {
      lent == Loans(history) && Alternating(history)
    }

    /** Every connection is in exactly one place, the pool is a bounded set, nothing is lost, and loans alternate with returns. */
    ghost predicate Valid()
      reads `pool, `closed, `created, `checking, `lent, `gone, `history
    {
      && Recorded()
      && NoDuplicates(pool) && |pool| <= maxConnections
      && Apart()
      && created == |pool| + |checking| + |lent| + |gone|
      && (closed ==> pool == [])
    }

    constructor (maxConnections: nat, maxIdleTimeMs: int, validateOnBorrow: bool)
      ensures Valid() && !closed && created == 0
    {
      this.maxConnections, this.maxIdleTimeMs, this.validateOnBorrow := maxConnections, maxIdleTimeMs, validateOnBorrow;
      pool, closed, created, checking, lent, gone, dead, dropping, creating := [], false, 0, {}, {}, {}, {}, 0, 0;
      history := [];
    }

    method Lend(connection: nat)
      requires Recorded() && connection !in lent
      modifies this`lent, this`history
      ensures Recorded() && lent == old(lent) + {connection} && history == old(history) + [LentOut(connection)]
    {
      LoansSnoc(history, LentOut(connection));
      lent, history := lent + {connection}, history + [LentOut(connection)];
    }

    method TakeBack(connection: nat)
      requires Recorded() && connection in lent
      modifies this`lent, this`history
      ensures Recorded() && lent == old(lent) - {connection} && history == old(history) + [GivenBack(connection)]
    {
      LoansSnoc(history, GivenBack(connection));
      lent, history := lent - {connection}, history + [GivenBack(connection)];
    }

    /** Takes one connection out of the pool, closed or dead. */
    method Discard(i: nat)
      requires Valid() && i < |pool|
      modifies this`pool, this`gone
      ensures Valid() && pool == old(pool)[..i] + old(pool)[i + 1..]
      ensures var c := old(pool)[i].connection;
        c in Connections(old(pool)) && Connections(pool) == Connections(old(pool)) - {c} && gone == old(gone) + {c}
    {
      hide Recorded;
      Splice(pool, i);
      var connection := pool[i].connection;
      pool := pool[..i] + pool[i + 1..];
      gone := gone + {connection};
    }

    /** Takes the last connection out of the pool, to be validated. */
    method TakeToCheck() returns (connection: nat)
      requires Valid() && |pool| > 0
      modifies this`pool, this`checking
      ensures Valid() && pool == old(pool)[..|old(pool)| - 1] && connection == old(pool)[|pool|].connection
      ensures Connections(pool) == Connections(old(pool)) - {connection}
      ensures connection !in old(checking) && checking == old(checking) + {connection}
    {
      hide Recorded;
      Splice(pool, |pool| - 1);
      connection := pool[|pool| - 1].connection;
      assert pool[..|pool| - 1] + pool[|pool|..] == pool[..|pool| - 1];
      pool := pool[..|pool| - 1];
      checking := checking + {connection};
    }

    /** Takes the last connection out of the pool, for a caller. */
    method TakeToLend() returns (connection: nat)
      requires Valid() && |pool| > 0
      modifies this`pool, this`lent, this`history
      ensures Valid() && pool == old(pool)[..|old(pool)| - 1] && connection == old(pool)[|pool|].connection
      ensures history == old(history) + [LentOut(connection)]
      ensures Connections(pool) == Connections(old(pool)) - {connection}
      ensures connection !in old(lent) && lent == old(lent) + {connection}
    {
      hide Recorded;
      Splice(pool, |pool| - 1);
      connection := pool[|pool| - 1].connection;
      assert pool[..|pool| - 1] + pool[|pool|..] == pool[..|pool| - 1];
      pool := pool[..|pool| - 1];
      Lend(connection);
    }

    /** Skips the dead connections at the end of the pool. */
    method DiscardDead()
      requires Valid()
      modifies this`pool, this`gone
      ensures Valid() && pool == Trimmed(old(pool), dead)
      ensures pool != [] ==> pool[|pool| - 1].connection !in dead
    {
      hide Valid, Connections, Trimmed;
      TrimmedOnce(pool, dead);
      while |pool| > 0 && pool[|pool| - 1].connection in dead
        invariant Valid() && Trimmed(pool, dead) == Trimmed(old(pool), dead)
        decreases |pool|
      {
        var n := |pool| - 1;
        assert pool[..n] + pool[n + 1..] == pool[..n];
        TrimmedOnce(pool, dead);
        Discard(n);
      }
      TrimmedOnce(pool, dead);
    }

    /** A call of getConnection runs until it has to wait or has its connection. */
    method Search(now: int) returns (r: Progress)
      requires Valid()
      modifies this`pool, this`checking, this`lent, this`gone, this`dropping, this`creating, this`history
      ensures Valid()
      ensures r == Next(Trimmed(old(pool), dead), now, maxIdleTimeMs, validateOnBorrow) && pool == Popped(Trimmed(old(pool), dead))
      ensures Chosen(old(pool), dead, now, maxIdleTimeMs, validateOnBorrow, r)
      ensures creating == old(creating) + if r.Creating? then 1 else 0
      ensures dropping == old(dropping) + if r.Dropping? then 1 else 0
      ensures if r.Lent? then r.connection !in old(lent) && lent == old(lent) + {r.connection} else lent == old(lent)
      ensures if r.Checking? then checking == old(checking) + {r.connection} else checking == old(checking)
      ensures history == old(history) + if r.Lent? then [LentOut(r.connection)] else []
    {
      hide Valid, Connections, Trimmed, Chosen;
      NextChosen(pool, dead, now, maxIdleTimeMs, validateOnBorrow);
      DiscardDead();
      if |pool| == 0 {
        creating := creating + 1;
        return Creating;
      }
      var n, p := |pool| - 1, pool[|pool| - 1];
      assert pool[..n] + pool[n + 1..] == pool[..n];
      if now - p.lastUsed > maxIdleTimeMs {
        Discard(n);
        dropping := dropping + 1;
        r := Dropping(p.connection);
      } else if validateOnBorrow {
        var connection := TakeToCheck();
        r := Checking(connection);
      } else {
        var connection := TakeToLend();
        r := Lent(connection);
      }
    }

    /** getConnection is called. */
    method GetConnection(now: int) returns (r: Progress)
      requires Valid()
      modifies this`pool, this`checking, this`lent, this`gone, this`dropping, this`creating, this`history
      ensures Valid()
      ensures if closed then r == Refused && pool == old(pool) && gone == old(gone) else
        r == Next(Trimmed(old(pool), dead), now, maxIdleTimeMs, validateOnBorrow) && pool == Popped(Trimmed(old(pool), dead))
      ensures creating == old(creating) + if r.Creating? then 1 else 0
      ensures dropping == old(dropping) + if r.Dropping? then 1 else 0
      ensures if r.Lent? then r.connection !in old(lent) && lent == old(lent) + {r.connection} else lent == old(lent)
      ensures if r.Checking? then checking == old(checking) + {r.connection} else checking == old(checking)
      ensures history == old(history) + if r.Lent? then [LentOut(r.connection)] else []
    {
      hide Valid, Connections, Trimmed;
      if closed {
        return Refused;
      }
      r := Search(now);
    }

    /** The close of a stale connection has ended, well or badly; the search goes on. */
    method DropEnds(now: int) returns (r: Progress)
      requires Valid() && dropping > 0
      modifies this`pool, this`checking, this`lent, this`gone, this`dropping, this`creating, this`history
      ensures Valid()
      ensures r == Next(Trimmed(old(pool), dead), now, maxIdleTimeMs, validateOnBorrow) && pool == Popped(Trimmed(old(pool), dead))
      ensures creating == old(creating) + if r.Creating? then 1 else 0
      ensures dropping == old(dropping) - 1 + if r.Dropping? then 1 else 0
      ensures if r.Lent? then r.connection !in old(lent) && lent == old(lent) + {r.connection} else lent == old(lent)
      ensures if r.Checking? then checking == old(checking) + {r.connection} else checking == old(checking)
      ensures history == old(history) + if r.Lent? then [LentOut(r.connection)] else []
    {
      hide Connections, Trimmed;
      dropping := dropping - 1;
      r := Search(now);
    }

    /** The validation of a connection has ended: it is lent, or closed. */
    method ValidationEnds(connection: nat, valid: bool) returns (r: Progress)
      requires Valid() && connection in checking
      modifies this`checking, this`lent, this`gone, this`dropping, this`history
      ensures Valid() && checking == old(checking) - {connection}
      ensures history == old(history) + if valid then [LentOut(connection)] else []
      ensures valid ==> r == Lent(connection) && lent == old(lent) + {connection} && gone == old(gone)
      ensures !valid ==> r == Dropping(connection) && gone == old(gone) + {connection} && lent == old(lent)
    {
      hide Recorded;
      checking := checking - {connection};
      if valid {
        Lend(connection);
        r := Lent(connection);
      } else {
        gone := gone + {connection};
        dropping := dropping + 1;
        r := Dropping(connection);
      }
    }

    /** The inner data source has made a connection, or failed. */
    method CreationEnds(ok: bool) returns (r: Progress)
      requires Valid() && creating > 0
      modifies this`created, this`lent, this`creating, this`history
      ensures Valid() && r == if ok then Lent(old(created)) else Failed
      ensures created == old(created) + (if ok then 1 else 0)
      ensures lent == if ok then old(lent) + {old(created)} else old(lent)
      ensures history == old(history) + if ok then [LentOut(old(created))] else []
    {
      hide Recorded;
      creating := creating - 1;
      if !ok {
        return Failed;
      }
      r := Lent(created);
      Lend(created);
      created := created + 1;
    }

    /** A connection on loan is closed for good. */
    method GiveUp(connection: nat)
      requires Valid() && connection in lent
      modifies this`lent, this`gone, this`history
      ensures Valid() && lent == old(lent) - {connection} && gone == old(gone) + {connection}
      ensures history == old(history) + [GivenBack(connection)]
    {
      hide Recorded;
      TakeBack(connection);
      gone := gone + {connection};
    }

    /** A connection on loan goes back into the pool. */
    method PutBack(connection: nat, now: int)
      requires Valid() && connection in lent && !closed && |pool| < maxConnections
      modifies this`pool, this`lent, this`history
      ensures Valid() && lent == old(lent) - {connection} && pool == old(pool) + [Pooled(connection, now)]
      ensures history == old(history) + [GivenBack(connection)]
    {
      hide Recorded;
      TakeBack(connection);
      pool := pool + [Pooled(connection, now)];
    }

    /** The first close() of a wrapper. */
    method Return(connection: nat, now: int)
      requires Valid() && connection in lent
      modifies this`pool, this`lent, this`gone, this`history
      ensures Valid() && lent == old(lent) - {connection} && history == old(history) + [GivenBack(connection)]
      ensures pool == Returned(old(pool), connection, now, closed, maxConnections, dead)
      ensures !closed && connection !in dead && |old(pool)| < maxConnections ==> pool == old(pool) + [Pooled(connection, now)]
      ensures gone == if pool == old(pool) then old(gone) + {connection} else old(gone)
    {
      hide Valid;
      if closed || connection in dead {
        GiveUp(connection);
        return;
      }
      if |pool| >= maxConnections {
        GiveUp(connection);
        return;
      }
      PutBack(connection, now);
    }

    /** The timer's round: stale and dead connections leave the pool. */
    method EvictIdle(now: int)
      requires Valid()
      modifies this`pool, this`gone
      ensures Valid() && pool == Fresh(old(pool), now, maxIdleTimeMs, dead)
      ensures forall p :: p in pool <==> p in old(pool) && now <= p.lastUsed + maxIdleTimeMs && p.connection !in dead
    {
      hide Valid, Connections, Fresh;
      ghost var all, k: nat := pool, 0;
      var i := 0;
      FreshOfNone(now, maxIdleTimeMs, dead);
      while i < |pool|
        invariant Valid() && i <= |pool| && k <= |all| && pool[i..] == all[k..]
        invariant pool[..i] == Fresh(all[..k], now, maxIdleTimeMs, dead)
        decreases |all| - k
      {
        var p := pool[i];
        assert p == all[k] && all[..k + 1] == all[..k] + [p];
        FreshSnoc(all[..k], p, now, maxIdleTimeMs, dead);
        k := k + 1;
        if now - p.lastUsed > maxIdleTimeMs || p.connection in dead {
          ghost var before := pool;
          Discard(i);
          assert pool[..i] == before[..i] && pool[i..] == before[i + 1..];
        } else {
          i := i + 1;
        }
      }
      assert all[..k] == all && pool[..i] == pool;
      assert forall p :: p in pool <==> p in all && !Stale(p, now, maxIdleTimeMs, dead);
    }

    static lemma FreshOfNone(now: int, maxIdle: int, dead: set<nat>)
      ensures Fresh([], now, maxIdle, dead) == []
    {
    }

    static lemma Splice(pool: seq<Pooled>, i: nat)
      requires NoDuplicates(pool) && i < |pool|
      ensures var rest := pool[..i] + pool[i + 1..];
        NoDuplicates(rest) && Connections(rest) == Connections(pool) - {pool[i].connection}
    {
      var rest := pool[..i] + pool[i + 1..];
      forall c | c in Connections(pool) && c != pool[i].connection ensures c in Connections(rest) {
        var j :| 0 <= j < |pool| && pool[j].connection == c;
        assert rest[if j < i then j else j - 1] == pool[j];
      }
    }

    /** The data source is closed: the pooled connections are closed, those on loan stay out. */
    method Close()
      requires Valid()
      modifies this`pool, this`gone, this`closed
      ensures Valid() && closed && pool == [] && gone == old(gone) + Connections(old(pool))
    {
      hide Recorded;
      closed := true;
      Counted(pool);
      gone := gone + Connections(pool);
      pool := [];
    }

    static lemma {:induction false} Counted(pool: seq<Pooled>)
      requires NoDuplicates(pool)
      ensures |Connections(pool)| == |pool|
    {
      if |pool| > 0 {
        var n := |pool| - 1;
        Counted(pool[..n]);
        assert Connections(pool) == Connections(pool[..n]) + {pool[n].connection};
      }
    }

    /** A connection breaks, wherever it is. */
    method Breaks(connection: nat)
      requires Valid()
      modifies this`dead
      ensures Valid() && dead == old(dead) + {connection}
    {
      dead := dead + {connection};
    }

    /** A further close() of a wrapper whose connection was already given back, wherever that is now. It keeps the data source
        sound exactly when nothing is put into the pool; then a live connection is closed instead, even under another caller. */
    method CloseAgain(connection: nat, now: int) returns (closes: bool)
      requires Valid() && connection < created
      modifies this`pool
      ensures pool == Returned(old(pool), connection, now, closed, maxConnections, dead)
      ensures Valid() <==> closed || connection in dead || |old(pool)| >= maxConnections
      ensures closes <==> Valid() && connection !in dead
    {
      hide Recorded;
      SecondCloseDuplicates(pool, checking + lent + gone, connection, now, closed, maxConnections, dead);
      if closed || connection in dead {
        return connection !in dead;
      }
      if |pool| >= maxConnections {
        return true;
      }
      pool := pool + [Pooled(connection, now)];
      closes := false;
    }

    /** In every reachable state, a connection was given back between any two of its loans: no two callers hold it at once. */
    lemma LentAlone(i: nat, j: nat)
      requires Valid() && i < j < |history| && history[i] == history[j] && history[i].LentOut?
      ensures exists k :: i < k < j && history[k] == GivenBack(history[i].connection)
    {
      if forall k :: i < k < j ==> history[k] != GivenBack(history[i].connection) {
        LoanLasts(history, i, j);
        assert false;
      }
    }
  }
}
