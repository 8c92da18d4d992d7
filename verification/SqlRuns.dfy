/** SQL statements on runs of the engine: when every commit of a run carries the writes of an insert
    or of a catalogue entry, every snapshot holds exactly the rows inserted up to some point. */
module SqlRuns {
  import opened Bytes
  import opened Mvcc
  import opened Engine
  import opened Snapshots
  import opened EngineInvariant
  import opened Isolation
  import opened Durability
  import opened TableKeys
  import opened Tables

  /** What one commit record is for. */
  datatype Commit = OfRow(name: Bytes, row: Row) | OfCatalogue(key: Bytes, value: Bytes) | OfReader

  type Contents = map<Bytes, Data>

  ghost predicate AllWellFormed(tables: map<Bytes, Table>) {
    forall name :: name in tables ==> WellFormed(name, tables[name])
  }

  /** The writes of one commit: a good row under a fresh primary key with its index entries, one
      catalogue entry, or nothing. */
  ghost predicate Carries(tables: map<Bytes, Table>, data: Contents, c: Commit, writes: Store) {
    match c
    case OfRow(name, row) =>
      && name in tables && name in data
      && GoodRow(tables[name], row) && PkOf(tables[name], row) !in data[name]
      && InsertWrites(name, tables[name], row).Writes?
      && writes == Tables.Apply(map[], InsertWrites(name, tables[name], row).puts)
    case OfCatalogue(key, value) => IsCatalogueKey(key) && writes == map[key := value]
    case OfReader => writes == map[]
  }

  ghost function Added(tables: map<Bytes, Table>, data: Contents, c: Commit): Contents {
    if c.OfRow? && c.name in tables && c.name in data
    then data[c.name := data[c.name][PkOf(tables[c.name], c.row) := c.row]]
    else data
  }

  /** The rows inserted by the commits that a run has logged; script names each logged commit. */
  ghost function Inserted(tables: map<Bytes, Table>, run: seq<Step>, script: seq<Commit>): Contents
    requires |script| == |run|
  {
    if run == [] then map name | name in tables :: map[]
    else
      var n := |run| - 1;
      var data := Inserted(tables, run[..n], script[..n]);
      if run[n].Log? then Added(tables, data, script[n]) else data
  }

  ghost predicate Scripted(tables: map<Bytes, Table>, run: seq<Step>, script: seq<Commit>) {
    && |script| == |run|
    && (run != [] ==>
          var n := |run| - 1;
          && Scripted(tables, run[..n], script[..n])
          && (run[n].Log? ==> Carries(tables, Inserted(tables, run[..n], script[..n]), script[n], ToMap(run[n].order))))
  }

  ghost predicate TablesIn(m: Store, tables: map<Bytes, Table>, data: Contents) {
    forall name :: name in tables ==> name in data && TableIn(m, name, tables[name], data[name])
  }

  lemma CommitHolds(m: Store, tables: map<Bytes, Table>, data: Contents, c: Commit, writes: Store)
    requires AllWellFormed(tables) && TablesIn(m, tables, data) && Carries(tables, data, c, writes)
    ensures TablesIn(m + writes, tables, Added(tables, data, c))
  {
    hide TableIn, WellFormed, GoodRow, InsertWrites, IsCatalogueKey;
    forall name | name in tables
      ensures var data' := Added(tables, data, c); name in data' && TableIn(m + writes, name, tables[name], data'[name])
    {
      var t := tables[name];
      match c
      case OfRow(other, row) =>
        var puts := InsertWrites(other, tables[other], row).puts;
        BufferedApply(m, map[], puts);
        assert m + map[] == m;
        if name == other {
          InsertAddsRow(m, name, t, data[name], row);
        } else {
          InsertLeavesOthers(m, name, t, data[name], other, tables[other], row);
        }
      case OfCatalogue(key, value) =>
        CatalogueIsForeign(name, t, key);
        PutForeign(m, key, value, name, t, data[name]);
        assert m + map[key := value] == m[key := value];
      case OfReader =>
        assert m + map[] == m;
    }
  }

  /** What the log amounts to holds exactly the inserted rows, of every table. */
  lemma {:induction false} LoggedHolds(tables: map<Bytes, Table>, run: seq<Step>, script: seq<Commit>)
    requires AllWellFormed(tables) && Scripted(tables, run, script)
    ensures TablesIn(LoggedWrites(run), tables, Inserted(tables, run, script))
    decreases |run|
  {
    hide Carries, TablesIn, ToMap, AllWellFormed;
    if run == [] {
      NothingHeld(tables, run, script);
    } else {
      var n := |run| - 1;
      LoggedHolds(tables, run[..n], script[..n]);
      if run[n].Log? {
        CommitHolds(LoggedWrites(run[..n]), tables, Inserted(tables, run[..n], script[..n]), script[n], ToMap(run[n].order));
      }
    }
  }

  lemma NothingHeld(tables: map<Bytes, Table>, run: seq<Step>, script: seq<Commit>)
    requires run == [] && |script| == 0
    ensures TablesIn(LoggedWrites(run), tables, Inserted(tables, run, script))
  {
  }

  /* ---------- Snapshots ---------- */

  /** m is what the log amounted to at some point of the run. */
  ghost predicate WasLogged(run: seq<Step>, m: Store) {
    exists n :: 0 <= n <= |run| && m == LoggedWrites(run[..n])
  }

  lemma StillLogged(init: seq<Step>, last: Step, m: Store)
    requires WasLogged(init, m)
    ensures WasLogged(init + [last], m)
  {
    var n :| 0 <= n <= |init| && m == LoggedWrites(init[..n]);
    assert (init + [last])[..n] == init[..n];
  }

  lemma LoggedNow(run: seq<Step>)
    ensures WasLogged(run, LoggedWrites(run))
  {
    assert run[..|run|] == run;
  }

  ghost predicate AllWereLogged(run: seq<Step>, a: Abs) {
    && WasLogged(run, a.committed) && WasLogged(run, a.durable)
    && forall t :: t in a.txns ==> WasLogged(run, a.txns[t].snapshot)
  }

  lemma StepWasLogged(init: seq<Step>, last: Step, a: Abs)
    requires AllWereLogged(init, a)
    requires var a' := AbsNext(a, last);
             WasLogged(init + [last], a'.durable) && (last.Finish? ==> a'.committed == a'.durable)
    ensures AllWereLogged(init + [last], AbsNext(a, last))
  {
    hide WasLogged;
    var run, a' := init + [last], AbsNext(a, last);
    StillLogged(init, last, a.committed);
    StillLogged(init, last, a.durable);
    forall t | t in a'.txns ensures WasLogged(run, a'.txns[t].snapshot) {
      if t in a.txns { StillLogged(init, last, a.txns[t].snapshot); }
    }
  }

  /** Every live transaction's snapshot, and the committed state, is what some prefix of the run logged. */
  lemma {:induction false} SnapshotsWereLogged(run: seq<Step>)
    requires AllowedRun(Init, run)
    ensures AllWereLogged(run, AbsAfter(AbsInit, run))
    decreases |run|
  {
    hide WasLogged, AllWereLogged, Sim, AbsNext, Next, Guarded, AbsAfter, After, AllowedRun, LoggedWrites;
    DurableIsLogged(run);
    LoggedNow(run);
    if run == [] {
      InitWasLogged();
    } else {
      var init, last := run[..|run| - 1], run[|run| - 1];
      assert run == init + [last];
      AfterSplit(Init, AbsInit, init, last);
      SnapshotsWereLogged(init);
      InitSim();
      RunRefines(Init, AbsInit, init);
      DurableAfterFinish(After(Init, init), AbsAfter(AbsInit, init), last);
      StepWasLogged(init, last, AbsAfter(AbsInit, init));
    }
  }

  lemma InitWasLogged()
    ensures AllWereLogged([], AbsAfter(AbsInit, []))
  {
    LoggedNow([]);
  }

  /** A commit that finishes makes committed what was durable. */
  lemma DurableAfterFinish(s: Sys, a: Abs, step: Step)
    requires Sim(s, a) && Enabled(s, step)
    ensures step.Finish? ==> AbsNext(a, step).committed == a.durable == AbsNext(a, step).durable
  {
  }

  /** Every live transaction's snapshot holds, of every table, exactly the rows inserted by the commits
      logged up to some point of the run, with exactly their index entries: what SELECT relies on. */
  lemma SnapshotsHoldTables(tables: map<Bytes, Table>, run: seq<Step>, script: seq<Commit>, t: TxnId) returns (n: nat)
    requires AllWellFormed(tables) && AllowedRun(Init, run) && Scripted(tables, run, script)
    requires t in AbsAfter(AbsInit, run).txns
    ensures n <= |run| && |script| == |run|
    ensures TablesIn(AbsAfter(AbsInit, run).txns[t].snapshot, tables, Inserted(tables, run[..n], script[..n]))
  {
    hide TablesIn, AllWellFormed;
    SnapshotsWereLogged(run);
    n :| 0 <= n <= |run| && AbsAfter(AbsInit, run).txns[t].snapshot == LoggedWrites(run[..n]);
    ScriptedPrefix(tables, run, script, n);
    LoggedHolds(tables, run[..n], script[..n]);
  }

  lemma {:induction false} ScriptedPrefix(tables: map<Bytes, Table>, run: seq<Step>, script: seq<Commit>, n: nat)
    requires Scripted(tables, run, script) && n <= |run|
    ensures |script| == |run| && Scripted(tables, run[..n], script[..n])
    decreases |run|
  {
    hide Carries;
    if n == |run| {
      assert run[..n] == run && script[..n] == script;
    } else {
      var k := |run| - 1;
      assert run[..k][..n] == run[..n] && script[..k][..n] == script[..n];
      ScriptedPrefix(tables, run[..k], script[..k], n);
    }
  }

  /* ---------- Every row is written once ---------- */

  /** At most one version of each row key of the table. */
  ghost predicate OnceIn(vs: set<Version>, name: Bytes) {
    forall v, w :: v in vs && w in vs && v.key == w.key && HasPrefix(v.key, RowKey(name, [])) ==> v == w
  }

  /** Every logged version's key is a key of what was logged. */
  lemma {:induction false} LoggedKeys(run: seq<Step>)
    requires AllowedRun(Init, run)
    ensures forall v :: v in LoggedVersions(run) ==> v.key in LoggedWrites(run)
    decreases |run|
  {
    hide Allowed;
    if run == [] {
    } else {
      var init, last := run[..|run| - 1], run[|run| - 1];
      assert run == init + [last];
      AfterSplit(Init, AbsInit, init, last);
      LoggedKeys(init);
      if last.Log? { RecordKeys(After(Init, init), last); }
    }
  }

  /** A logged record has one version per key, under the keys of its write map. */
  lemma RecordKeys(s: Sys, step: Step)
    requires Allowed(s, step) && step.Log?
    ensures forall v :: v in RecordSet(Record(step.txn, step.order)) ==> v.key in ToMap(step.order)
    ensures var vs := RecordSet(Record(step.txn, step.order));
            forall v, w :: v in vs && w in vs && v.key == w.key ==> v == w
  {
    ToMapOf(step.order, s.txns[step.txn].writes);
  }

  /** The only row key that a commit writes is that of its own row. */
  lemma WrittenRowKey(tables: map<Bytes, Table>, data: Contents, c: Commit, writes: Store, m: Store, name: Bytes, k: Bytes)
    requires AllWellFormed(tables) && name in tables && TablesIn(m, tables, data) && Carries(tables, data, c, writes)
    requires k in writes && HasPrefix(k, RowKey(name, []))
    ensures k !in m
  {
    var t := tables[name];
    match c
    case OfRow(other, row) =>
      var t' := tables[other];
      InsertIsWrites(other, t', row);
      var puts := InsertWrites(other, t', row).puts;
      ApplyKeys(map[], puts);
      var i :| 0 <= i < |puts| && puts[i].0 == k;
      if other != name {
        RowIsForeign(name, t, other, PkOf(t', row));
        if i > 0 { EntryIsForeign(name, t, other, t', t'.indexes[i - 1], row); }
        assert false;
      }
      if i > 0 { EntryIsNoRow(name, t, t.indexes[i - 1], row); }
      assert k == RowKey(name, PkOf(t, row));
      FreshRowKey(m, name, t, data[name], PkOf(t, row));
    case OfCatalogue(key, value) => CatalogueIsForeign(name, t, key);
    case OfReader =>
  }

  lemma FreshRowKey(m: Store, name: Bytes, t: Table, data: Data, pk: Bytes)
    requires TableIn(m, name, t, data) && pk !in data
    ensures RowKey(name, pk) !in m
  {
    RowKeyInjective(name, pk, pk);
    if RowKey(name, pk) in m {
      var q :| q in data && RowKey(name, pk) == RowKey(name, q);
      RowKeyInjective(name, pk, q);
    }
  }

  /** Along such a run each row key is logged at most once. */
  lemma {:induction false} RowsLoggedOnce(tables: map<Bytes, Table>, run: seq<Step>, script: seq<Commit>, name: Bytes)
    requires AllWellFormed(tables) && name in tables && AllowedRun(Init, run) && Scripted(tables, run, script)
    ensures OnceIn(LoggedVersions(run), name)
    decreases |run|
  {
    hide Allowed, Carries, TablesIn, AllWellFormed, ToMap, Next;
    if run == [] {
    } else {
      var n := |run| - 1;
      var init, last := run[..n], run[n];
      assert run == init + [last];
      AfterSplit(Init, AbsInit, init, last);
      RowsLoggedOnce(tables, init, script[..n], name);
      if last.Log? {
        RecordKeys(After(Init, init), last);
        LoggedKeys(init);
        LoggedHolds(tables, init, script[..n]);
        forall v | v in RecordSet(Record(last.txn, last.order)) && HasPrefix(v.key, RowKey(name, []))
          ensures v.key !in LoggedWrites(init)
        {
          WrittenRowKey(tables, Inserted(tables, init, script[..n]), script[n], ToMap(last.order), LoggedWrites(init), name, v.key);
        }
      }
    }
  }

  /** So the store has at most one version of each row key, which is what point reads of rows rely on. */
  lemma RowsStoredOnce(tables: map<Bytes, Table>, run: seq<Step>, script: seq<Commit>, name: Bytes)
    requires AllWellFormed(tables) && name in tables && AllowedRun(Init, run) && Scripted(tables, run, script)
    ensures OnceIn(Stored(After(Init, run)), name)
  {
    hide Inv, Stored, OnDisk;
    RowsLoggedOnce(tables, run, script, name);
    LoggedIsAccounted(run);
    StoredIsOnDisk(After(Init, run));
  }
}
