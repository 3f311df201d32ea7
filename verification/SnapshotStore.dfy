/** The time-travel store: named tables, each a list of full-table snapshots ordered by timestamp. */
module SnapshotStore {
  import opened Basics

  /** A record batch: its schema, and its contents as an opaque value. */
  datatype Batch = Batch(schema: nat, contents: nat)

  datatype Snapshot = Snapshot(timestamp: I64, batches: seq<Batch>)

  datatype TableVersions = TableVersions(schema: nat, snapshots: seq<Snapshot>)

  /** One accepted insertion. */
  datatype Entry = Entry(table: string, timestamp: I64, batches: seq<Batch>)

  const I64_MAX: I64 := 0x7FFF_FFFF_FFFF_FFFF

  datatype Outcome<+T> = Done(value: T) | Rejected

  // ---------- stable sort by timestamp ----------

  /** Put `x` after every snapshot whose timestamp is not greater. */
  function InsertStable(s: seq<Snapshot>, x: Snapshot): (r: seq<Snapshot>)
  {
    if s == [] || s[|s| - 1].timestamp <= x.timestamp then s + [x]
    else InsertStable(s[..|s| - 1], x) + [s[|s| - 1]]
  }

  /** `sort_by_key`, which is stable. */
  function StableSort(s: seq<Snapshot>): (r: seq<Snapshot>)
  {
    if s == [] then [] else InsertStable(StableSort(s[..|s| - 1]), s[|s| - 1])
  }

  ghost predicate Chronological(s: seq<Snapshot>) {
    forall i, j :: 0 <= i < j < |s| ==> s[i].timestamp <= s[j].timestamp
  }

  lemma {:induction false} InsertStableMembers(s: seq<Snapshot>, x: Snapshot)
    ensures forall y :: y in InsertStable(s, x) <==> y == x || y in s
  {
    if s != [] && s[|s| - 1].timestamp > x.timestamp {
      var init, last := s[..|s| - 1], s[|s| - 1];
      InsertStableMembers(init, x);
      assert s == init + [last];
    }
  }

  lemma {:induction false} InsertStableKeeps(s: seq<Snapshot>, x: Snapshot)
    requires Chronological(s)
    ensures Chronological(InsertStable(s, x))
  {
    if s != [] && s[|s| - 1].timestamp > x.timestamp {
      var init, last := s[..|s| - 1], s[|s| - 1];
      InsertStableKeeps(init, x);
      InsertStableMembers(init, x);
      var r := InsertStable(init, x);
      assert InsertStable(s, x) == r + [last];
      hide InsertStable;
      forall i | 0 <= i < |r| ensures r[i].timestamp <= last.timestamp {
        assert r[i] in r;
        if r[i] in init {
          var k :| 0 <= k < |init| && init[k] == r[i];
          assert s[k] == r[i];
        }
      }
    }
  }

  /** A newest snapshot goes last. */
  lemma InsertNewest(s: seq<Snapshot>, x: Snapshot)
    requires s != [] ==> s[|s| - 1].timestamp <= x.timestamp
    ensures InsertStable(s, x) == s + [x]
  {
  }

  lemma Initially(s: seq<Snapshot>)
    requires s != [] && Chronological(s)
    ensures Chronological(s[..|s| - 1])
    ensures |s| > 1 ==> s[|s| - 2].timestamp <= s[|s| - 1].timestamp
  {
  }

  lemma {:induction false} SortedIsFixed(s: seq<Snapshot>)
    requires Chronological(s)
    ensures StableSort(s) == s
  {
    hide InsertStable, Chronological;
    if s != [] {
      var init, last := s[..|s| - 1], s[|s| - 1];
      Initially(s);
      SortedIsFixed(init);
      InsertNewest(init, last);
      assert s == init + [last];
    }
  }

  /** Pushing onto a sorted list and re-sorting is one stable insertion. */
  lemma PushAndSort(s: seq<Snapshot>, x: Snapshot)
    requires Chronological(s)
    ensures StableSort(s + [x]) == InsertStable(s, x)
  {
    SortedIsFixed(s);
    assert (s + [x])[..|s|] == s;
  }

  // ---------- the history ----------

  /** The snapshots of a table as the history of accepted insertions leaves them. */
  ghost function Versions(log: seq<Entry>, table: string): (s: seq<Snapshot>)
  {
    if log == [] then []
    else
      var last := log[|log| - 1];
      var older := Versions(log[..|log| - 1], table);
      if last.table == table then InsertStable(older, Snapshot(last.timestamp, last.batches)) else older
  }

  lemma {:induction false} VersionsChronological(log: seq<Entry>, table: string)
    ensures Chronological(Versions(log, table))
  {
    if log != [] {
      VersionsChronological(log[..|log| - 1], table);
      if log[|log| - 1].table == table {
        InsertStableKeeps(Versions(log[..|log| - 1], table), Snapshot(log[|log| - 1].timestamp, log[|log| - 1].batches));
      }
    }
  }

  /** Entry `i` answers "as of `t`": it is on the table, not after `t`, no accepted entry at or before `t` is newer,
      and among those with its timestamp it was accepted last. */
  ghost predicate IsAsOf(log: seq<Entry>, table: string, t: I64, i: nat) {
    && i < |log| && log[i].table == table && log[i].timestamp <= t
    && forall j :: 0 <= j < |log| && log[j].table == table && log[j].timestamp <= t ==>
         log[j].timestamp < log[i].timestamp || (log[j].timestamp == log[i].timestamp && j <= i)
  }

  /** At most one entry answers. */
  lemma AsOfIsUnique(log: seq<Entry>, table: string, t: I64, i: nat, j: nat)
    requires IsAsOf(log, table, t, i) && IsAsOf(log, table, t, j)
    ensures i == j
  {
  }

  /** The table has no accepted entry at or before `t`. */
  ghost predicate NoneAsOf(log: seq<Entry>, table: string, t: I64) {
    forall i :: 0 <= i < |log| && log[i].table == table ==> log[i].timestamp > t
  }

  /** The newest snapshot at or before `t`, scanning from the end. */
  function FindLast(s: seq<Snapshot>, t: I64): (r: Option<Snapshot>)
    ensures r.Some? ==> r.value in s && r.value.timestamp <= t
  {
    if s == [] then None
    else if s[|s| - 1].timestamp <= t then Some(s[|s| - 1])
    else FindLast(s[..|s| - 1], t)
  }

  /** How a stable insertion changes what the scan finds. */
  lemma {:induction false} FindAfterInsert(s: seq<Snapshot>, x: Snapshot, t: I64)
    requires Chronological(s)
    ensures var found := FindLast(s, t);
            FindLast(InsertStable(s, x), t)
            == if x.timestamp <= t && (found.None? || found.value.timestamp <= x.timestamp) then Some(x) else found
  {
    if s == [] {
      assert InsertStable(s, x) == [x];
    } else {
      var init, last := s[..|s| - 1], s[|s| - 1];
      if last.timestamp <= x.timestamp {
        assert (s + [x])[..|s|] == s;
        if FindLast(s, t).Some? {
          var k :| 0 <= k < |s| && s[k] == FindLast(s, t).value;
        }
      } else {
        FindAfterInsert(init, x, t);
        var r := InsertStable(init, x);
        assert (r + [last])[..|r|] == r;
      }
    }
  }

  /** The entry that answers "as of `t`", by walking the history. */
  ghost function AsOfIndex(log: seq<Entry>, table: string, t: I64): (r: Option<nat>)
    ensures r.Some? ==> r.value < |log|
  {
    if log == [] then None
    else
      var n := |log| - 1;
      var older := AsOfIndex(log[..n], table, t);
      if log[n].table == table && log[n].timestamp <= t
         && (older.None? || log[older.value].timestamp <= log[n].timestamp)
      then Some(n) else older
  }

  /** It is the greatest timestamp at or before `t` and, among equal timestamps, the last accepted. */
  lemma {:induction false} AsOfIndexIs(log: seq<Entry>, table: string, t: I64)
    ensures AsOfIndex(log, table, t) == None <==> NoneAsOf(log, table, t)
    ensures AsOfIndex(log, table, t).Some? ==> IsAsOf(log, table, t, AsOfIndex(log, table, t).value)
  {
    if log != [] {
      var n := |log| - 1;
      var init := log[..n];
      AsOfIndexIs(init, table, t);
      assert forall k :: 0 <= k < n ==> init[k] == log[k];
    }
  }

  /** After any history, scanning a table's snapshots from the end finds that entry's snapshot. */
  lemma {:induction false} ScanIsAsOf(log: seq<Entry>, table: string, t: I64)
    ensures FindLast(Versions(log, table), t)
            == match AsOfIndex(log, table, t)
               case None => None
               case Some(i) => Some(Snapshot(log[i].timestamp, log[i].batches))
  {
    if log != [] {
      var n := |log| - 1;
      var init, last := log[..n], log[n];
      ScanIsAsOf(init, table, t);
      if last.table == table {
        VersionsChronological(init, table);
        FindAfterInsert(Versions(init, table), Snapshot(last.timestamp, last.batches), t);
      }
    }
  }

  /** Insertions later than `t` or on other tables never change what `as_of(t)` returns. */
  lemma {:induction false} LaterInsertsInvisible(log: seq<Entry>, more: seq<Entry>, table: string, t: I64)
    requires forall i :: 0 <= i < |more| ==> more[i].table != table || more[i].timestamp > t
    ensures AsOfIndex(log + more, table, t) == AsOfIndex(log, table, t)
    ensures FindLast(Versions(log + more, table), t) == FindLast(Versions(log, table), t)
  {
    if more == [] {
      assert log + more == log;
    } else {
      var init := more[..|more| - 1];
      LaterInsertsInvisible(log, init, table, t);
      assert (log + more)[..|log + more| - 1] == log + init;
      ScanIsAsOf(log + more, table, t);
      ScanIsAsOf(log, table, t);
    }
  }

  // ---------- the store ----------

  class Store {
    var tables: map<string, TableVersions>
    /** Every accepted insertion, in order. */
    ghost var log: seq<Entry>

    /** Each table holds exactly what the history of accepted insertions leaves it, under one schema. */
    ghost predicate Valid()
      reads this
    {
      && (forall name :: name in tables ==> tables[name].snapshots == Versions(log, name) && tables[name].snapshots != [])
      && (forall name :: name !in tables ==> Versions(log, name) == [])
    }

    constructor ()
      ensures Valid() && log == [] && tables == map[]
    {
      tables := map[];
      log := [];
    }

    /** Record a full-table snapshot. Rejected, without effect, when it has no batches or a schema other than the
        table's. */
    method Insert(table: string, timestamp: I64, batches: seq<Batch>) returns (r: Outcome<()>)
      requires Valid()
      modifies this
      ensures Valid()
      ensures r.Rejected? <==>
                batches == [] || (table in old(tables) && batches[0].schema != old(tables)[table].schema)
      ensures r.Rejected? ==> log == old(log) && tables == old(tables)
      ensures r.Done? ==> log == old(log) + [Entry(table, timestamp, batches)]
      ensures r.Done? ==> tables.Keys == old(tables).Keys + {table} && tables[table].schema == batches[0].schema
      ensures r.Done? ==> forall name :: name in old(tables) ==> tables[name].schema == old(tables)[name].schema
    {
      if |batches| == 0 {
        return Rejected;
      }
      var schema := batches[0].schema;
      var versions := if table in tables then tables[table] else TableVersions(schema, []);
      if versions.schema != schema {
        return Rejected;
      }
      var snapshots := StableSort(versions.snapshots + [Snapshot(timestamp, batches)]);
      InsertVersions(log, versions.snapshots, table, timestamp, batches);
      tables := tables[table := versions.(snapshots := snapshots)];
      log := log + [Entry(table, timestamp, batches)];
      r := Done(());
    }

    /** The state of `table` as it was known at `timestamp`. */
    method AsOf(table: string, timestamp: I64) returns (r: Outcome<seq<Batch>>)
      requires Valid()
      ensures r.Rejected? <==> NoneAsOf(log, table, timestamp)
      ensures r.Done? ==> exists i: nat :: IsAsOf(log, table, timestamp, i) && r.value == log[i].batches
    {
      ScanIsAsOf(log, table, timestamp);
      AsOfIndexIs(log, table, timestamp);
      if table !in tables {
        return Rejected;
      }
      var found := FindLast(tables[table].snapshots, timestamp);
      r := if found.Some? then Done(found.value.batches) else Rejected;
    }

    /** The current state of `table`. */
    method Latest(table: string) returns (r: Outcome<seq<Batch>>)
      requires Valid()
      ensures r.Rejected? <==> forall i :: 0 <= i < |log| ==> log[i].table != table
      ensures r.Done? ==> exists i: nat :: IsAsOf(log, table, I64_MAX, i) && r.value == log[i].batches
    {
      ScanIsAsOf(log, table, I64_MAX);
      AsOfIndexIs(log, table, I64_MAX);
      if table !in tables {
        return Rejected;
      }
      var s := tables[table].snapshots;
      if |s| == 0 {
        return Rejected;
      }
      r := Done(s[|s| - 1].batches);
    }
  }

  /** One accepted insertion advances the history of its own table and of no other. */
  lemma InsertVersions(log: seq<Entry>, snapshots: seq<Snapshot>, table: string, timestamp: I64, batches: seq<Batch>)
    requires snapshots == Versions(log, table)
    ensures var longer := log + [Entry(table, timestamp, batches)];
            && StableSort(snapshots + [Snapshot(timestamp, batches)]) == Versions(longer, table)
            && Versions(longer, table) != []
            && forall name :: name != table ==> Versions(longer, name) == Versions(log, name)
  {
    var longer := log + [Entry(table, timestamp, batches)];
    assert longer[..|log|] == log;
    VersionsChronological(log, table);
    PushAndSort(snapshots, Snapshot(timestamp, batches));
    InsertStableMembers(snapshots, Snapshot(timestamp, batches));
    assert Snapshot(timestamp, batches) in Versions(longer, table);
  }
}
