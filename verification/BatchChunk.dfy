/** One chunk of batched lookups: the ids are deduplicated, asked for in one query, and every request is answered. */
module BatchChunk {
  import opened Options
  import opened SqlText

  /** An id as the caller gave it; the number 1 and the text "1" have the same string form. */
  datatype Id = Number(n: nat) | Text(s: string)

  function KeyOf(id: Id): string {
    match id
    case Number(n) => Decimal(n)
    case Text(s) => s
  }

  /** One call of load: `ticket` tells calls with equal ids apart. */
  datatype Request = Request(ticket: nat, id: Id)

  datatype Row<+T> = Row(key: string, entity: T)

  /** What the database answers while a chunk is under way. */
  datatype Database<+T> = Available(table: seq<Row<T>>) | Failing(error: string)

  type Answer<+T> = Result<Option<T>, string>

  datatype Settlement<+T> = Settlement(request: Request, answer: Answer<T>)

  // ------------------------------------------------ the direct lookup

  /** The rows with one of the given keys. */
  function Matching<T>(table: seq<Row<T>>, keys: seq<string>): seq<Row<T>> {
    if |table| == 0 then []
    else if table[0].key in keys then [table[0]] + Matching(table[1..], keys)
    else Matching(table[1..], keys)
  }

  /** The last row with a key. */
  function LastWith<T>(rows: seq<Row<T>>, key: string): Option<T> {
    if |rows| == 0 then None
    else if rows[|rows| - 1].key == key then Some(rows[|rows| - 1].entity)
    else LastWith(rows[..|rows| - 1], key)
  }

  /** What a query for this one id would give: the last of the rows whose key is the text, or the number in decimals. */
  function Direct<T>(database: Database<T>, hasIdColumn: bool, id: Id): Answer<T> {
    if !hasIdColumn then Err("Cannot find ID column")
    else match database
      case Failing(error) => Err(error)
      case Available(table) =>
        match id
        case Text(s) => Ok(LastWith(table, s))
        case Number(n) => Ok(LastWith(table, Decimal(n)))
  }

  /** No later row has the key of row i. */
  predicate IsLastWith<T(==)>(table: seq<Row<T>>, key: string, i: nat) {
    i < |table| && table[i].key == key && forall j :: i < j < |table| ==> table[j].key != key
  }

  /** The answer is the entity of the last row with the key, or none if there is no such row. */
  predicate Finds<T(==)>(table: seq<Row<T>>, key: string, found: Option<T>) {
    if found.None? then forall i :: 0 <= i < |table| ==> table[i].key != key
    else exists i :: 0 <= i < |table| && IsLastWith(table, key, i) && table[i].entity == found.value
  }

  lemma {:induction false} LastWithFinds<T>(table: seq<Row<T>>, key: string)
    ensures Finds(table, key, LastWith(table, key))
  {
    if |table| > 0 {
      var n := |table| - 1;
      LastWithFinds(table[..n], key);
      if table[n].key == key {
        assert IsLastWith(table, key, n);
      } else if LastWith(table[..n], key).Some? {
        var i :| 0 <= i < n && IsLastWith(table[..n], key, i) && table[..n][i].entity == LastWith(table[..n], key).value;
        assert IsLastWith(table, key, i);
      }
    }
  }

  /** A request for a text is served with the last row that has it as its key, one for a number with the last row that has its numeral. */
  predicate Serves<T(==)>(table: seq<Row<T>>, id: Id, answer: Answer<T>) {
    && answer.Ok?
    && match id
       case Text(s) => Finds(table, s, answer.value)
       case Number(n) => Finds(table, Decimal(n), answer.value)
  }

  lemma DirectServes<T>(table: seq<Row<T>>, id: Id)
    ensures Serves(table, id, Direct(Available(table), true, id))
  {
    hide Finds, LastWith;
    match id {
      case Text(s) => LastWithFinds(table, s);
      case Number(n) => LastWithFinds(table, Decimal(n));
    }
  }

  /** Two ids share an answer exactly when they are written alike. */
  lemma ShareExactly(a: Id, b: Id)
    ensures KeyOf(a) == KeyOf(b) <==>
      match a
      case Text(s) => (match b case Text(t) => s == t case Number(n) => s == Decimal(n))
      case Number(m) => (match b case Text(t) => Decimal(m) == t case Number(n) => m == n)
  {
    if a.Number? && b.Number? && Decimal(a.n) == Decimal(b.n) { DecimalInjective(a.n, b.n); }
  }

  lemma {:induction false} MatchingSnoc<T>(table: seq<Row<T>>, row: Row<T>, keys: seq<string>)
    ensures Matching(table + [row], keys) == Matching(table, keys) + if row.key in keys then [row] else []
  {
    if |table| == 0 {
      assert table + [row] == [row];
    } else {
      MatchingSnoc(table[1..], row, keys);
      assert table + [row] == [table[0]] + (table[1..] + [row]);
    }
  }

  lemma LastWithSnoc<T>(rows: seq<Row<T>>, row: Row<T>, key: string)
    ensures LastWith(rows + [row], key) == if row.key == key then Some(row.entity) else LastWith(rows, key)
  {
    assert (rows + [row])[..|rows|] == rows;
  }

  /** Asking for more keys at once does not change what is found for one of them. */
  lemma {:induction false} LastOfMatching<T>(table: seq<Row<T>>, keys: seq<string>, key: string)
    requires key in keys
    ensures LastWith(Matching(table, keys), key) == LastWith(table, key)
  {
    if |table| > 0 {
      var n := |table| - 1;
      LastOfMatching(table[..n], keys, key);
      LastOfMatchingSnoc(table[..n], table[n], keys, key);
      assert table[..n] + [table[n]] == table;
    }
  }

  lemma LastOfMatchingSnoc<T>(table: seq<Row<T>>, row: Row<T>, keys: seq<string>, key: string)
    requires key in keys && LastWith(Matching(table, keys), key) == LastWith(table, key)
    ensures LastWith(Matching(table + [row], keys), key) == LastWith(table + [row], key)
  {
    hide Matching, LastWith;
    MatchingSnoc(table, row, keys);
    LastWithSnoc(table, row, key);
    if row.key in keys {
      LastWithSnoc(Matching(table, keys), row, key);
    } else {
      assert Matching(table, keys) + [] == Matching(table, keys);
    }
  }

  // --------------------------------------------------------- grouping

  function WithKey(chunk: seq<Request>, key: string): seq<Request> {
    if |chunk| == 0 then []
    else
      var n := |chunk| - 1;
      WithKey(chunk[..n], key) + if KeyOf(chunk[n].id) == key then [chunk[n]] else []
  }

  function NotWithKey(chunk: seq<Request>, key: string): seq<Request> {
    if |chunk| == 0 then []
    else
      var n := |chunk| - 1;
      NotWithKey(chunk[..n], key) + if KeyOf(chunk[n].id) == key then [] else [chunk[n]]
  }

  lemma {:induction false} GroupMembers(chunk: seq<Request>, key: string)
    ensures forall r :: r in WithKey(chunk, key) ==> r in chunk && KeyOf(r.id) == key
    ensures forall r :: r in NotWithKey(chunk, key) ==> r in chunk && KeyOf(r.id) != key
  {
    if |chunk| > 0 {
      GroupMembers(chunk[..|chunk| - 1], key);
    }
  }

  lemma WithKeySnoc(chunk: seq<Request>, r: Request, key: string)
    ensures WithKey(chunk + [r], key) == WithKey(chunk, key) + if KeyOf(r.id) == key then [r] else []
  {
    assert (chunk + [r])[..|chunk|] == chunk;
  }

  lemma NotWithKeySnoc(chunk: seq<Request>, r: Request, key: string)
    ensures NotWithKey(chunk + [r], key) == NotWithKey(chunk, key) + if KeyOf(r.id) == key then [] else [r]
  {
    assert (chunk + [r])[..|chunk|] == chunk;
  }

  /** The distinct keys, in the order they first occur. */
  function Keys(chunk: seq<Request>): (keys: seq<string>) {
    if |chunk| == 0 then []
    else
      var n := |chunk| - 1;
      var keys := Keys(chunk[..n]);
      if KeyOf(chunk[n].id) in keys then keys else keys + [KeyOf(chunk[n].id)]
  }

  predicate Unique(keys: seq<string>) {
    forall i, j :: 0 <= i < j < |keys| ==> keys[i] != keys[j]
  }

  lemma {:induction false} KeysDistinct(chunk: seq<Request>)
    ensures Unique(Keys(chunk)) && forall r :: r in chunk ==> KeyOf(r.id) in Keys(chunk)
  {
    hide KeyOf;
    if |chunk| > 0 {
      KeysDistinct(chunk[..|chunk| - 1]);
    }
  }

  lemma {:induction false} Split(chunk: seq<Request>, key: string)
    ensures multiset(WithKey(chunk, key)) + multiset(NotWithKey(chunk, key)) == multiset(chunk)
  {
    if |chunk| > 0 {
      var n := |chunk| - 1;
      Split(chunk[..n], key);
      SplitSnoc(chunk[..n], chunk[n], key);
      assert chunk == chunk[..n] + [chunk[n]];
    }
  }

  lemma SplitSnoc(chunk: seq<Request>, r: Request, key: string)
    requires multiset(WithKey(chunk, key)) + multiset(NotWithKey(chunk, key)) == multiset(chunk)
    ensures multiset(WithKey(chunk + [r], key)) + multiset(NotWithKey(chunk + [r], key)) == multiset(chunk + [r])
  {
    WithKeySnoc(chunk, r, key);
    NotWithKeySnoc(chunk, r, key);
    hide WithKey, NotWithKey;
  }

  lemma {:induction false} OtherGroups(chunk: seq<Request>, gone: string, key: string)
    requires gone != key
    ensures WithKey(NotWithKey(chunk, gone), key) == WithKey(chunk, key)
  {
    if |chunk| > 0 {
      var n := |chunk| - 1;
      OtherGroups(chunk[..n], gone, key);
      NotWithKeySnoc(chunk[..n], chunk[n], gone);
      WithKeySnoc(chunk[..n], chunk[n], key);
      WithKeySnoc(NotWithKey(chunk[..n], gone), chunk[n], key);
      hide WithKey, NotWithKey;
      assert chunk == chunk[..n] + [chunk[n]];
      assert NotWithKey(chunk[..n], gone) + [] == NotWithKey(chunk[..n], gone);
      assert WithKey(chunk[..n], key) + [] == WithKey(chunk[..n], key);
    }
  }

  /** The groups of the keys, one after the other. */
  function Grouped(chunk: seq<Request>, keys: seq<string>): seq<Request> {
    if |keys| == 0 then []
    else Grouped(chunk, keys[..|keys| - 1]) + WithKey(chunk, keys[|keys| - 1])
  }

  lemma {:induction false} GroupedWithout(chunk: seq<Request>, gone: string, keys: seq<string>)
    requires gone !in keys
    ensures Grouped(NotWithKey(chunk, gone), keys) == Grouped(chunk, keys)
  {
    if |keys| > 0 {
      GroupedWithout(chunk, gone, keys[..|keys| - 1]);
      OtherGroups(chunk, gone, keys[|keys| - 1]);
    }
  }

  lemma FirstIsIn(chunk: seq<Request>)
    ensures chunk == [] || chunk[0] in chunk
  {
  }

  /** Grouping by key keeps every request once. */
  lemma {:induction false} GroupedIsAll(chunk: seq<Request>, keys: seq<string>)
    requires Unique(keys) && forall r :: r in chunk ==> KeyOf(r.id) in keys
    ensures multiset(Grouped(chunk, keys)) == multiset(chunk)
    decreases |keys|
  {
    FirstIsIn(chunk);
    if |keys| > 0 {
      var n := |keys| - 1;
      GroupMembers(chunk, keys[n]);
      Split(chunk, keys[n]);
      GroupedWithout(chunk, keys[n], keys[..n]);
      GroupedIsAll(NotWithKey(chunk, keys[n]), keys[..n]);
    }
  }

  /** Every request with the answer a direct lookup would have given it. */
  function Settled<T>(requests: seq<Request>, database: Database<T>, hasIdColumn: bool): (log: seq<Settlement<T>>)
    ensures |log| == |requests|
  {
    seq(|requests|, i requires 0 <= i < |requests| => Settlement(requests[i], Direct(database, hasIdColumn, requests[i].id)))
  }

  function Requests<T>(log: seq<Settlement<T>>): (requests: seq<Request>)
    ensures |requests| == |log|
  {
    seq(|log|, i requires 0 <= i < |log| => log[i].request)
  }

  // ----------------------------------------------------- executeChunk

  lemma EmptyGroups()
    ensures Keys([]) == [] && forall k :: WithKey([], k) == []
  {
  }

  /** One more request joins its group, or starts a new one. */
  lemma GroupSnoc(seen: seq<Request>, r: Request, keys: seq<string>)
    requires keys == Keys(seen)
    ensures Keys(seen + [r]) == if KeyOf(r.id) in keys then keys else keys + [KeyOf(r.id)]
    ensures forall k :: WithKey(seen + [r], k) == WithKey(seen, k) + if KeyOf(r.id) == k then [r] else []
    ensures KeyOf(r.id) !in keys ==> WithKey(seen, KeyOf(r.id)) == []
  {
    assert (seen + [r])[..|seen|] == seen;
    KeysDistinct(seen);
    forall k ensures WithKey(seen + [r], k) == WithKey(seen, k) + if KeyOf(r.id) == k then [r] else [] {
      WithKeySnoc(seen, r, k);
    }
    var group := WithKey(seen, KeyOf(r.id));
    GroupMembers(seen, KeyOf(r.id));
    assert |group| > 0 ==> group[0] in seen;
  }

  /** Groups the requests by key, remembering the order in which keys first occur. */
  method GroupByKey(chunk: seq<Request>) returns (keys: seq<string>, groups: map<string, seq<Request>>)
    ensures keys == Keys(chunk) && Unique(keys) && forall k :: k in keys ==> k in groups && groups[k] == WithKey(chunk, k)
  {
    hide Keys, WithKey, KeyOf;
    EmptyGroups();
    keys, groups := [], map[];
    for i := 0 to |chunk|
      invariant keys == Keys(chunk[..i]) && forall k :: k in keys <==> k in groups
      invariant forall k :: k in groups ==> groups[k] == WithKey(chunk[..i], k)
    {
      var key := KeyOf(chunk[i].id);
      ghost var seen := chunk[..i];
      assert chunk[..i + 1] == seen + [chunk[i]];
      GroupSnoc(seen, chunk[i], keys);
      if key in groups {
        groups := groups[key := groups[key] + [chunk[i]]];
      } else {
        groups := groups[key := [chunk[i]]];
        keys := keys + [key];
      }
    }
    assert chunk[..|chunk|] == chunk;
    KeysDistinct(chunk);
  }

  /** Reads the rows of the one query; a later row of the same key replaces an earlier one. */
  method ResultMap<T>(rows: seq<Row<T>>) returns (results: map<string, T>)
    ensures forall k :: LastWith(rows, k) == if k in results then Some(results[k]) else None
  {
    results := map[];
    for i := 0 to |rows|
      invariant forall k :: LastWith(rows[..i], k) == if k in results then Some(results[k]) else None
    {
      results := results[rows[i].key := rows[i].entity];
      assert rows[..i + 1][..i] == rows[..i];
    }
    assert rows[..|rows|] == rows;
  }

  /** Every request is told the same error. */
  method RejectAll<T>(chunk: seq<Request>, error: string) returns (log: seq<Settlement<T>>)
    ensures log == AnswerAll(chunk, Err(error))
  {
    log := [];
    for i := 0 to |chunk|
      invariant log == AnswerAll(chunk[..i], Err(error))
    {
      log := log + [Settlement(chunk[i], Err(error))];
    }
  }

  /** Every group gets the answer found for its key. */
  method ResolveGroups<T>(chunk: seq<Request>, keys: seq<string>, groups: map<string, seq<Request>>, table: seq<Row<T>>)
    returns (log: seq<Settlement<T>>)
    requires forall k :: k in keys ==> k in groups && groups[k] == WithKey(chunk, k)
    ensures log == Settled(Grouped(chunk, keys), Available(table), true)
  {
    var results := ResultMap(Matching(table, keys));
    log := [];
    for i := 0 to |keys|
      invariant log == Settled(Grouped(chunk, keys[..i]), Available(table), true)
    {
      hide Matching, WithKey, Settled, Grouped, LastWith;
      var key := keys[i];
      LastOfMatching(table, keys, key);
      var answer: Answer<T> := Ok(if key in results then Some(results[key]) else None);
      log := log + AnswerAll(groups[key], answer);
      GroupSettled(chunk, keys, i, table);
    }
    assert keys[..|keys|] == keys;
  }

  lemma GroupSettled<T>(chunk: seq<Request>, keys: seq<string>, i: nat, table: seq<Row<T>>)
    requires i < |keys|
    ensures Settled(Grouped(chunk, keys[..i + 1]), Available(table), true)
      == Settled(Grouped(chunk, keys[..i]), Available(table), true)
         + AnswerAll(WithKey(chunk, keys[i]), Ok(LastWith(table, keys[i])))
  {
    hide LastWith;
    GroupMembers(chunk, keys[i]);
    assert keys[..i + 1][..i] == keys[..i];
  }

  /** Answers a chunk: one query for its distinct keys, then one answer for every request. */
  method ExecuteChunk<T>(chunk: seq<Request>, database: Database<T>, hasIdColumn: bool) returns (log: seq<Settlement<T>>)
    ensures multiset(Requests(log)) == multiset(chunk)
    ensures log == Settled(Requests(log), database, hasIdColumn)
    ensures hasIdColumn && database.Available? ==>
      forall i :: 0 <= i < |log| ==> Serves(database.table, log[i].request.id, log[i].answer)
  {
    hide Grouped, WithKey, Keys, Matching, LastWith, KeyOf, Serves;
    if !hasIdColumn {
      log := RejectAll(chunk, "Cannot find ID column");
      assert Requests(log) == chunk;
      return;
    }
    var keys, groups := GroupByKey(chunk);
    if database.Failing? {
      log := RejectAll(chunk, database.error);
      assert Requests(log) == chunk;
      return;
    }
    KeysDistinct(chunk);
    GroupedIsAll(chunk, keys);
    log := ResolveGroups(chunk, keys, groups, database.table);
    assert Requests(log) == Grouped(chunk, keys);
    forall i | 0 <= i < |log| ensures Serves(database.table, log[i].request.id, log[i].answer) {
      DirectServes(database.table, log[i].request.id);
    }
  }

  function AnswerAll<T>(group: seq<Request>, answer: Answer<T>): seq<Settlement<T>> {
    seq(|group|, i requires 0 <= i < |group| => Settlement(group[i], answer))
  }
}
