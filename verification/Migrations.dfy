/** Migrations, what they do to a schema, and the order in which they are taken. */
module Migrations {
  import opened Options

  /** Statements and data transforms in the order of one transaction; versions are compared by one total order. */
  datatype Migration<D> = Migration(version: int, checksum: string, up: seq<D>, down: seq<D>)

  datatype Record = Record(version: int, checksum: string)

  function RecordOf<D>(m: Migration<D>): Record {
    Record(m.version, m.checksum)
  }

  function Records<D>(ms: seq<Migration<D>>): (rs: seq<Record>)
    ensures |rs| == |ms|
  {
    seq(|ms|, i requires 0 <= i < |ms| => RecordOf(ms[i]))
  }

  // ------------------------------------------------- effect on a schema

  type Engine<!S, !D> = (S, D) -> Option<S>

  /** All statements, one after the other; none if one of them is refused. */
  function RunAll<S, D>(execute: Engine<S, D>, s: S, statements: seq<D>): Option<S> {
    if |statements| == 0 then Some(s)
    else
      var n := |statements| - 1;
      match RunAll(execute, s, statements[..n])
      case None => None
      case Some(t) => execute(t, statements[n])
  }

  /** The schema after the migrations' up(), in order. */
  function Applied<S, D>(execute: Engine<S, D>, base: S, history: seq<Migration<D>>): Option<S> {
    if |history| == 0 then Some(base)
    else
      var n := |history| - 1;
      match Applied(execute, base, history[..n])
      case None => None
      case Some(t) => RunAll(execute, t, history[n].up)
  }

  /** down() undoes up(), wherever up() succeeds. */
  ghost predicate Reversible<S(!new), D>(execute: Engine<S, D>, m: Migration<D>) {
    forall s, t :: RunAll(execute, s, m.up) == Some(t) ==> RunAll(execute, t, m.down) == Some(s)
  }

  lemma AppliedSnoc<S, D>(execute: Engine<S, D>, base: S, history: seq<Migration<D>>, m: Migration<D>, s: S)
    requires Applied(execute, base, history) == Some(s)
    ensures Applied(execute, base, history + [m]) == RunAll(execute, s, m.up)
  {
    assert (history + [m])[..|history|] == history;
  }

  // --------------------------------------------------- order and choice

  predicate Increasing(table: seq<Record>) {
    forall i, j :: 0 <= i < j < |table| ==> table[i].version < table[j].version
  }

  predicate UniqueVersions(table: seq<Record>) {
    forall i, j :: 0 <= i < j < |table| ==> table[i].version != table[j].version
  }

  predicate HasVersion(table: seq<Record>, version: int) {
    exists i :: 0 <= i < |table| && table[i].version == version
  }

  function Insert(sorted: seq<Record>, r: Record): seq<Record> {
    if |sorted| == 0 || sorted[|sorted| - 1].version <= r.version then sorted + [r]
    else Insert(sorted[..|sorted| - 1], r) + [sorted[|sorted| - 1]]
  }

  /** ORDER BY version. */
  function ByVersion(table: seq<Record>): seq<Record> {
    if |table| == 0 then [] else Insert(ByVersion(table[..|table| - 1]), table[|table| - 1])
  }

  lemma {:induction false} AlreadyByVersion(table: seq<Record>)
    requires Increasing(table)
    ensures ByVersion(table) == table
  {
    if |table| > 0 {
      AlreadyByVersion(table[..|table| - 1]);
    }
  }

  function InsertMigration<D>(sorted: seq<Migration<D>>, m: Migration<D>): seq<Migration<D>> {
    if |sorted| == 0 || sorted[|sorted| - 1].version <= m.version then sorted + [m]
    else InsertMigration(sorted[..|sorted| - 1], m) + [sorted[|sorted| - 1]]
  }

  /** The migrations not recorded yet, sorted by version, equal versions in the order given. */
  function Pending<D>(table: seq<Record>, migrations: seq<Migration<D>>): seq<Migration<D>> {
    if |migrations| == 0 then []
    else
      var n := |migrations| - 1;
      var rest := Pending(table, migrations[..n]);
      if HasVersion(table, migrations[n].version) then rest else InsertMigration(rest, migrations[n])
  }

  predicate Ascending<D>(ms: seq<Migration<D>>) {
    forall i, j :: 0 <= i < j < |ms| ==> ms[i].version <= ms[j].version
  }

  lemma {:induction false} InsertBounded<D>(sorted: seq<Migration<D>>, m: Migration<D>, bound: int)
    requires m.version <= bound && forall i :: 0 <= i < |sorted| ==> sorted[i].version <= bound
    ensures forall i :: 0 <= i < |InsertMigration(sorted, m)| ==> InsertMigration(sorted, m)[i].version <= bound
  {
    if |sorted| > 0 && sorted[|sorted| - 1].version > m.version {
      var n := |sorted| - 1;
      InsertBounded(sorted[..n], m, bound);
      assert InsertMigration(sorted, m) == InsertMigration(sorted[..n], m) + [sorted[n]];
    }
  }

  lemma {:induction false} InsertAscends<D>(sorted: seq<Migration<D>>, m: Migration<D>)
    requires Ascending(sorted)
    ensures Ascending(InsertMigration(sorted, m))
    ensures forall x :: x in InsertMigration(sorted, m) <==> x in sorted || x == m
  {
    if |sorted| > 0 && sorted[|sorted| - 1].version > m.version {
      var n := |sorted| - 1;
      InsertAscends(sorted[..n], m);
      assert sorted == sorted[..n] + [sorted[n]];
      InsertBounded(sorted[..n], m, sorted[n].version);
      var rest := InsertMigration(sorted[..n], m);
      AscendsTo(rest, sorted[n]);
    }
  }

  lemma AscendsTo<D>(ms: seq<Migration<D>>, m: Migration<D>)
    requires Ascending(ms) && forall i :: 0 <= i < |ms| ==> ms[i].version <= m.version
    ensures Ascending(ms + [m])
  {
  }

  /** Pending holds exactly the unrecorded migrations, in version order. */
  lemma {:induction false} PendingExactly<D>(table: seq<Record>, migrations: seq<Migration<D>>)
    ensures Ascending(Pending(table, migrations))
    ensures forall m :: m in Pending(table, migrations) <==> m in migrations && !HasVersion(table, m.version)
  {
    if |migrations| > 0 {
      var n := |migrations| - 1;
      PendingExactly(table, migrations[..n]);
      assert migrations == migrations[..n] + [migrations[n]];
      InsertAscends(Pending(table, migrations[..n]), migrations[n]);
    }
  }

  /** Every unrecorded migration comes after every recorded one. */
  ghost predicate InOrder<D>(table: seq<Record>, migrations: seq<Migration<D>>) {
    forall m, i :: m in migrations && !HasVersion(table, m.version) && 0 <= i < |table| ==> table[i].version < m.version
  }

  predicate DistinctVersions<D>(ms: seq<Migration<D>>) {
    forall i, j :: 0 <= i < j < |ms| ==> ms[i].version != ms[j].version
  }

  /** Adding all that is pending keeps the table in the order of application exactly when no pending version is too low, or doubled. */
  lemma StaysIncreasing<D>(table: seq<Record>, migrations: seq<Migration<D>>)
    requires Increasing(table)
    ensures var pending := Pending(table, migrations);
      Increasing(table + Records(pending)) <==> InOrder(table, migrations) && DistinctVersions(pending)
  {
    PendingExactly(table, migrations);
    var pending := Pending(table, migrations);
    var all := table + Records(pending);
    if Increasing(all) {
      forall m, i | m in migrations && !HasVersion(table, m.version) && 0 <= i < |table| ensures table[i].version < m.version {
        var j :| 0 <= j < |pending| && pending[j] == m;
        assert all[i] == table[i] && all[|table| + j] == RecordOf(m);
      }
      forall i, j | 0 <= i < j < |pending| ensures pending[i].version != pending[j].version {
        assert all[|table| + i] == RecordOf(pending[i]) && all[|table| + j] == RecordOf(pending[j]);
      }
    }
    if InOrder(table, migrations) && DistinctVersions(pending) {
      forall i, j | 0 <= i < j < |all| ensures all[i].version < all[j].version {
        if i < |table| <= j {
          assert pending[j - |table|] in migrations;
        }
      }
    }
  }

  /** A first part of what is pending keeps it too, when it has no version twice. */
  lemma PartStaysIncreasing<D>(table: seq<Record>, migrations: seq<Migration<D>>, done: seq<Migration<D>>)
    requires Increasing(table) && InOrder(table, migrations) && done <= Pending(table, migrations)
    requires UniqueVersions(table + Records(done))
    ensures Increasing(table + Records(done))
  {
    PendingExactly(table, migrations);
    var pending := Pending(table, migrations);
    var all := table + Records(done);
    forall i, j | 0 <= i < j < |all| ensures all[i].version < all[j].version {
      if i < |table| <= j {
        assert pending[j - |table|] in migrations;
      } else if |table| <= i {
        assert pending[i - |table|].version <= pending[j - |table|].version;
        assert all[i].version != all[j].version;
      }
    }
  }

  /** No recorded migration has been modified. */
  ghost predicate ChecksumsMatch<D>(table: seq<Record>, migrations: seq<Migration<D>>) {
    forall m, i :: m in migrations && 0 <= i < |table| && table[i].version == m.version ==> table[i].checksum == m.checksum
  }

  /** Once all that was pending is recorded, nothing is pending and all checksums match. */
  lemma NothingLeft<D>(table: seq<Record>, migrations: seq<Migration<D>>)
    requires ChecksumsMatch(table, migrations)
    requires UniqueVersions(table + Records(Pending(table, migrations)))
    ensures var after := table + Records(Pending(table, migrations));
      Pending(after, migrations) == [] && ChecksumsMatch(after, migrations)
  {
    PendingExactly(table, migrations);
    var pending := Pending(table, migrations);
    var after := table + Records(pending);
    forall m | m in migrations ensures HasVersion(after, m.version) {
      var j := RecordedAfter(table, migrations, m);
    }
    NonePending(after, migrations);
    forall m, i | m in migrations && 0 <= i < |after| && after[i].version == m.version ensures after[i].checksum == m.checksum {
      var j := RecordedAfter(table, migrations, m);
      assert after[i].version == after[j].version;
    }
  }

  lemma {:induction false} NonePending<D>(table: seq<Record>, migrations: seq<Migration<D>>)
    requires forall m :: m in migrations ==> HasVersion(table, m.version)
    ensures Pending(table, migrations) == []
  {
    if |migrations| > 0 {
      NonePending(table, migrations[..|migrations| - 1]);
    }
  }

  /** Where a migration is recorded once all that was pending is: with its own checksum. */
  lemma RecordedAfter<D>(table: seq<Record>, migrations: seq<Migration<D>>, m: Migration<D>) returns (j: nat)
    requires m in migrations && ChecksumsMatch(table, migrations)
    ensures var after := table + Records(Pending(table, migrations));
      j < |after| && after[j] == RecordOf(m)
  {
    PendingExactly(table, migrations);
    var pending := Pending(table, migrations);
    if HasVersion(table, m.version) {
      j :| 0 <= j < |table| && table[j].version == m.version;
    } else {
      var k :| 0 <= k < |pending| && pending[k] == m;
      j := |table| + k;
    }
  }

  /** The definition a version has in a list: the last one given. */
  function Definition<D>(migrations: seq<Migration<D>>, version: int): Option<Migration<D>> {
    if |migrations| == 0 then None
    else if migrations[|migrations| - 1].version == version then Some(migrations[|migrations| - 1])
    else Definition(migrations[..|migrations| - 1], version)
  }

  lemma {:induction false} DefinesVersion<D>(migrations: seq<Migration<D>>, version: int)
    requires Definition(migrations, version).Some?
    ensures Definition(migrations, version).value.version == version
  {
    if migrations[|migrations| - 1].version != version {
      DefinesVersion(migrations[..|migrations| - 1], version);
    }
  }

  /** Where applied.slice(-steps) begins. */
  function SliceStart(length: nat, steps: int): (start: nat)
    ensures start <= length
  {
    if steps > 0 then (if steps <= length then length - steps else 0)
    else if -steps <= length then -steps else length
  }

  /** As many migrations as asked for (or all there are) are taken back exactly when steps is positive or there is none; zero takes back all. */
  lemma StepsExactly(length: nat, steps: nat)
    ensures length - SliceStart(length, steps) == (if steps <= length then steps else length) <==> steps > 0 || length == 0
    ensures SliceStart(length, 0) == 0
  {
  }

  function Without(table: seq<Record>, version: int): seq<Record> {
    if |table| == 0 then []
    else
      var n := |table| - 1;
      Without(table[..n], version) + if table[n].version == version then [] else [table[n]]
  }

  lemma {:induction false} WithoutAbsent(table: seq<Record>, version: int)
    requires !HasVersion(table, version)
    ensures Without(table, version) == table
  {
    if |table| > 0 {
      var n := |table| - 1;
      assert forall i :: 0 <= i < n ==> table[..n][i] == table[i];
      WithoutAbsent(table[..n], version);
      assert table == table[..n] + [table[n]];
    }
  }

  /** How many recorded versions are at most the target. */
  function CountUpTo(table: seq<Record>, version: int): (k: nat)
    ensures k <= |table|
  {
    if |table| == 0 then 0
    else CountUpTo(table[..|table| - 1], version) + if table[|table| - 1].version <= version then 1 else 0
  }

  lemma {:induction false} UpToIsPrefix(table: seq<Record>, version: int)
    requires Increasing(table)
    ensures var k := CountUpTo(table, version);
      (forall i :: 0 <= i < k ==> table[i].version <= version) && forall i :: k <= i < |table| ==> table[i].version > version
  {
    if |table| > 0 {
      var n := |table| - 1;
      UpToIsPrefix(table[..n], version);
      assert table[n].version <= version ==> forall i :: 0 <= i < n ==> table[..n][i].version <= version;
    }
  }

  /** Taking back the last recorded migration leads to the schema before it. */
  lemma LastUndone<S(!new), D>(execute: Engine<S, D>, base: S, history: seq<Migration<D>>, s: S)
    requires |history| > 0 && Applied(execute, base, history) == Some(s) && Reversible(execute, history[|history| - 1])
    ensures Applied(execute, base, history[..|history| - 1]).Some?
    ensures RunAll(execute, s, history[|history| - 1].down) == Applied(execute, base, history[..|history| - 1])
  {
    var n := |history| - 1;
    var before := Applied(execute, base, history[..n]);
    assert before.Some? && RunAll(execute, before.value, history[n].up) == Some(s);
  }

  lemma WithoutLast(table: seq<Record>)
    requires UniqueVersions(table) && |table| > 0
    ensures Without(table, table[|table| - 1].version) == table[..|table| - 1]
  {
    WithoutAbsent(table[..|table| - 1], table[|table| - 1].version);
  }

  function Reversed(records: seq<Record>): (r: seq<Record>)
    ensures |r| == |records|
    ensures forall i :: 0 <= i < |r| ==> r[i] == records[|records| - 1 - i]
  {
    if |records| == 0 then [] else [records[|records| - 1]] + Reversed(records[..|records| - 1])
  }

  /** The records after a version. */
  function After(table: seq<Record>, version: int): seq<Record> {
    if |table| == 0 then []
    else After(table[..|table| - 1], version) + if table[|table| - 1].version > version then [table[|table| - 1]] else []
  }

  lemma {:induction false} AfterIsSuffix(table: seq<Record>, version: int)
    requires Increasing(table)
    ensures After(table, version) == table[CountUpTo(table, version)..]
  {
    if |table| > 0 {
      var n := |table| - 1;
      AfterIsSuffix(table[..n], version);
      UpToIsPrefix(table[..n], version);
      var k := CountUpTo(table[..n], version);
      assert CountUpTo(table, version) == k + if table[n].version <= version then 1 else 0;
      assert After(table, version) == After(table[..n], version) + if table[n].version > version then [table[n]] else [];
      hide After, CountUpTo;
      assert table[..n][k..] + [table[n]] == table[k..];
      if table[n].version <= version {
        assert k == n;
      }
    }
  }

  // --------------------------------------- taking back, in any order

  /** ORDER BY version keeps the records, and gives them back as they were exactly when no version is out of its place. */
  lemma VersionOrderExactly(table: seq<Record>)
    requires UniqueVersions(table)
    ensures |ByVersion(table)| == |table| && (ByVersion(table) == table <==> Increasing(table))
  {
    ByVersionAscends(table);
    if Increasing(table) {
      AlreadyByVersion(table);
    }
  }

  predicate Rising(table: seq<Record>) {
    forall i, j :: 0 <= i < j < |table| ==> table[i].version <= table[j].version
  }

  lemma {:induction false} InsertRises(sorted: seq<Record>, r: Record)
    requires Rising(sorted)
    ensures Rising(Insert(sorted, r)) && |Insert(sorted, r)| == |sorted| + 1
    ensures forall x :: x in Insert(sorted, r) ==> x in sorted || x == r
  {
    if |sorted| > 0 && sorted[|sorted| - 1].version > r.version {
      var n := |sorted| - 1;
      InsertRises(sorted[..n], r);
      forall x | x in Insert(sorted[..n], r) ensures x.version <= sorted[n].version {
        assert x in sorted[..n] || x == r;
      }
    }
  }

  lemma {:induction false} ByVersionAscends(table: seq<Record>)
    ensures Rising(ByVersion(table)) && |ByVersion(table)| == |table|
  {
    if |table| > 0 {
      var n := |table| - 1;
      ByVersionAscends(table[..n]);
      InsertRises(ByVersion(table[..n]), table[n]);
    }
  }

  /** The schema after down() of the given records' definitions, one after the other. */
  function Undone<S, D>(execute: Engine<S, D>, s: S, migrations: seq<Migration<D>>, records: seq<Record>): Option<S> {
    if |records| == 0 then Some(s)
    else
      var n := |records| - 1;
      match (Undone(execute, s, migrations, records[..n]), Definition(migrations, records[n].version))
      case (Some(t), Some(m)) => RunAll(execute, t, m.down)
      case _ => None
  }

  /** The table without the given records. */
  function Removed(table: seq<Record>, records: seq<Record>): seq<Record> {
    if |records| == 0 then table
    else Without(Removed(table, records[..|records| - 1]), records[|records| - 1].version)
  }

  lemma ReversedPart(records: seq<Record>, j: nat)
    requires 0 < j <= |records|
    ensures Reversed(records)[..j] == Reversed(records)[..j - 1] + [records[|records| - j]]
  {
    hide Reversed;
    assert Reversed(records)[j - 1] == records[|records| - j];
  }

  /** Taken back from the end of the history, one after the other, reversible migrations lead to the schema of what remains. */
  lemma {:induction false} UndoneIsPrefix<S(!new), D>(execute: Engine<S, D>, base: S, history: seq<Migration<D>>, s: S,
                                                     migrations: seq<Migration<D>>, records: seq<Record>, j: nat, t: S)
    requires Applied(execute, base, history) == Some(s) && UniqueVersions(Records(history))
    requires forall i :: 0 <= i < |history| ==>
      Reversible(execute, history[i]) && Definition(migrations, history[i].version) in {None, Some(history[i])}
    requires j <= |records| <= |history| && records == Records(history)[|history| - |records|..]
    requires Undone(execute, s, migrations, Reversed(records)[..j]) == Some(t)
    ensures Applied(execute, base, history[..|history| - j]) == Some(t)
    ensures Removed(Records(history), Reversed(records)[..j]) == Records(history)[..|history| - j]
  {
    hide Reversible, RunAll, Definition, Reversed, Without, UniqueVersions;
    if j == 0 {
      assert Reversed(records)[..0] == [] && history[..|history|] == history && Records(history)[..|history|] == Records(history);
    } else {
      ReversedPart(records, j);
      var done, last := Reversed(records)[..j - 1], records[|records| - j];
      assert (done + [last])[..j - 1] == done;
      var before := Undone(execute, s, migrations, done).value;
      UndoneIsPrefix(execute, base, history, s, migrations, records, j - 1, before);
      var n := |history| - j;
      assert last == Records(history)[n] == RecordOf(history[n]);
      assert history[..n + 1][..n] == history[..n];
      LastUndone(execute, base, history[..n + 1], before);
      TableWithoutLast(Records(history), n);
    }
  }

  lemma TableWithoutLast(table: seq<Record>, n: nat)
    requires UniqueVersions(table) && n < |table|
    ensures Without(table[..n + 1], table[n].version) == table[..n]
  {
    assert UniqueVersions(table[..n + 1]);
    WithoutLast(table[..n + 1]);
    assert table[..n + 1][..n] == table[..n];
  }
}
