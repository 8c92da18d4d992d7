/** INSERT INTO over the storage engine (db/db.go InsertIntoTable, updateSecondaryIndexes): one
    transaction buffers the row and one entry per secondary index, in runs without lock conflicts. */
module Inserting {
  import opened Bytes
  import opened Mvcc
  import opened Engine
  import opened EngineLemmas
  import opened EngineInvariant
  import opened Isolation
  import opened Snapshots
  import opened Databases
  import opened Rows
  import opened Catalog
  import opened TableKeys
  import opened Tables

  /* ---------- Values of one index entry ---------- */

  /** The inner loop: the row's values of one index column, and the primary key in passing. */
  method OneColumnValues(name: Bytes, t: Table, row: Row, pk0: Bytes) returns (values: seq<Bytes>, pk: Bytes)
    requires |row| == |t.columns|
    ensures values == ValuesOf(name, t.columns, row)
    ensures pk == if 0 <= t.pkPosition < |t.columns| then row[t.pkPosition] else pk0
  {
    values, pk := [], pk0;
    assert t.columns[0..] == t.columns && row[0..] == row;
    for i := 0 to |t.columns|
      invariant values + ValuesOf(name, t.columns[i..], row[i..]) == ValuesOf(name, t.columns, row)
      invariant pk == if 0 <= t.pkPosition < i then row[t.pkPosition] else pk0
    {
      ghost var rest := ValuesOf(name, t.columns[i + 1..], row[i + 1..]);
      assert t.columns[i..][1..] == t.columns[i + 1..] && row[i..][1..] == row[i + 1..];
      if t.columns[i].name == name {
        assert values + ([row[i]] + rest) == (values + [row[i]]) + rest;
        values := values + [row[i]];
      } else {
        assert [] + rest == rest;
      }
      if i == t.pkPosition { pk := row[i]; }
    }
    assert values + [] == values;
  }

  /** getIndexAndPrimaryKeyColumnValuesInIndexSequence, up to its two error tests. */
  method IndexColumnValues(names: seq<Bytes>, t: Table, row: Row) returns (values: seq<Bytes>, pk: Bytes)
    requires |row| == |t.columns|
    ensures values == IndexValues(names, t.columns, row)
    ensures pk == if names == [] then [] else PkOf(t, row)
  {
    hide ValuesOf;
    values, pk := [], [];
    assert names[0..] == names;
    for n := 0 to |names|
      invariant values + IndexValues(names[n..], t.columns, row) == IndexValues(names, t.columns, row)
      invariant pk == if n == 0 then [] else PkOf(t, row)
    {
      ghost var rest := IndexValues(names[n + 1..], t.columns, row);
      assert names[n..][1..] == names[n + 1..];
      var more;
      more, pk := OneColumnValues(names[n], t, row, pk);
      assert values + (more + rest) == (values + more) + rest;
      values := values + more;
    }
    assert values + [] == values;
  }

  /* ---------- Buffering ---------- */

  /** No key of the writes is locked by another transaction. */
  ghost predicate NoConflict(s: Sys, t: TxnId, puts: Puts) {
    forall p <- puts :: !LockedByOther(s, t, p.0)
  }

  /** A Put keeps its transaction free of conflicts on every other key. */
  lemma PutStaysFree(s: Sys, t: TxnId, k: Bytes, v: Bytes, puts: Puts)
    requires Enabled(s, Step.Put(t, k, v)) && !LockedByOther(s, t, k) && NoConflict(s, t, puts)
    ensures var s' := Next(s, Step.Put(t, k, v));
            && NoConflict(s', t, puts) && t in s'.txns && s'.stage == s.stage
            && s'.txns[t].writes == s.txns[t].writes[k := v]
  {
  }

  lemma {:induction false} ApplyAppend(m: Store, puts: Puts, p: (Bytes, Bytes))
    ensures Tables.Apply(m, puts + [p]) == Tables.Apply(m, puts)[p.0 := p.1]
    decreases |puts|
  {
    if puts == [] {
      assert [] + [p] == [p] && [p][1..] == [];
    } else {
      assert (puts + [p])[1..] == puts[1..] + [p];
      ApplyAppend(m[puts[0].0 := puts[0].1], puts[1..], p);
    }
  }

  /** A transaction that is still collecting writes, and the run that got the database there. */
  ghost predicate Buffering(txn: Transaction, s0: Sys, run: seq<Step>)
    reads txn, txn.db, txn.db.wal, txn.db.mem, txn.db.sst, txn.db.live.Values
  {
    && txn.Running() && !Committing(txn.db.System(), txn.id)
    && EnabledRun(s0, run) && EndOf(s0, run) == txn.db.System()
  }

  /** One Put without a conflict. */
  method PutOne(txn: Transaction, key: Bytes, value: Bytes, ghost s0: Sys, ghost run: seq<Step>, ghost puts: Puts)
    returns (ghost run': seq<Step>)
    requires Buffering(txn, s0, run) && NoConflict(txn.db.System(), txn.id, puts) && (key, value) in puts
    modifies txn, txn.db`locks
    ensures Buffering(txn, s0, run') && txn.buffered == old(txn.buffered)[key := value]
    ensures NoConflict(txn.db.System(), txn.id, puts)
  {
    hide EnabledRun, EndOf;
    ghost var s := txn.db.System();
    ViewOf(txn);
    PutStaysFree(s, txn.id, key, value, puts);
    RunThenStep(s0, run, s, Step.Put(txn.id, key, value));
    run' := run + [Step.Put(txn.id, key, value)];
    var ok := txn.Put(key, value);
    ViewOf(txn);
  }

  lemma ViewOf(txn: Transaction)
    requires txn.Running()
    ensures txn.id in txn.db.System().txns && txn.db.System().txns[txn.id].writes == txn.buffered
    ensures txn.db.System().stage == txn.db.stage
  {
    assert txn.db.Txns()[txn.id] == txn.View();
  }

  lemma PutsOf(name: Bytes, t: Table, ixs: seq<Index>, row: Row, i: nat)
    requires |row| == |t.columns| && i < |ixs|
    ensures var rest := IndexPuts(name, t, ixs[i + 1..], row);
            IndexPuts(name, t, ixs[i..], row) ==
              match IndexPut(name, t, ixs[i], row)
              case None => None
              case Some(p) => if rest.None? then None else Some([p] + rest.value)
  {
    assert ixs[i..][1..] == ixs[i + 1..];
  }

  /** The loop body of updateSecondaryIndexes. */
  method UpdateOneIndex(txn: Transaction, name: Bytes, t: Table, ix: Index, row: Row, ghost s0: Sys, ghost run: seq<Step>, ghost puts: Puts)
    returns (ok: bool, ghost run': seq<Step>)
    requires |row| == |t.columns|
    requires Buffering(txn, s0, run) && NoConflict(txn.db.System(), txn.id, puts)
    requires IndexPut(name, t, ix, row).Some? ==> IndexPut(name, t, ix, row).value in puts
    modifies txn, txn.db`locks
    ensures ok <==> IndexPut(name, t, ix, row).Some?
    ensures Buffering(txn, s0, run') && NoConflict(txn.db.System(), txn.id, puts)
    ensures ok ==> var p := IndexPut(name, t, ix, row).value; txn.buffered == old(txn.buffered)[p.0 := p.1]
  {
    hide EnabledRun, EndOf, NoConflict, IndexKey, IndexValues;
    var values, pk := IndexColumnValues(ix.columns, t, row);
    if |values| != |ix.columns| || pk == [] { return false, run; }
    run' := PutOne(txn, IndexKey(name, ix.name, values, pk), [], s0, run, puts);
    return true, run';
  }

  /** updateSecondaryIndexes: one Put per index, given up at the first index that cannot be built. */
  method UpdateSecondaryIndexes(txn: Transaction, name: Bytes, t: Table, row: Row, ghost s0: Sys, ghost run: seq<Step>, ghost puts: Puts)
    returns (ok: bool, ghost run': seq<Step>)
    requires |row| == |t.columns|
    requires Buffering(txn, s0, run) && NoConflict(txn.db.System(), txn.id, puts)
    requires forall ix <- t.indexes :: IndexPut(name, t, ix, row).Some? ==> IndexPut(name, t, ix, row).value in puts
    modifies txn, txn.db`locks
    ensures ok <==> IndexPuts(name, t, t.indexes, row).Some?
    ensures Buffering(txn, s0, run')
    ensures ok ==> txn.buffered == Tables.Apply(old(txn.buffered), IndexPuts(name, t, t.indexes, row).value)
  {
    hide EnabledRun, EndOf, NoConflict, IndexPut, Tables.Apply;
    ghost var buffer := txn.buffered;
    ghost var whole := IndexPuts(name, t, t.indexes, row);
    ghost var done: Puts := [];
    run' := run;
    NothingApplied(buffer);
    assert t.indexes[0..] == t.indexes;
    assert whole.Some? ==> [] + whole.value == whole.value;
    for i := 0 to |t.indexes|
      invariant Buffering(txn, s0, run') && NoConflict(txn.db.System(), txn.id, puts)
      invariant txn.buffered == Tables.Apply(buffer, done)
      invariant whole == match IndexPuts(name, t, t.indexes[i..], row) case None => None case Some(rest) => Some(done + rest)
    {
      PutsOf(name, t, t.indexes, row, i);
      assert t.indexes[i] in t.indexes;
      ok, run' := UpdateOneIndex(txn, name, t, t.indexes[i], row, s0, run', puts);
      if !ok { return false, run'; }
      ghost var p := IndexPut(name, t, t.indexes[i], row).value;
      ghost var rest := IndexPuts(name, t, t.indexes[i + 1..], row);
      assert rest.Some? ==> done + ([p] + rest.value) == (done + [p]) + rest.value;
      ApplyAppend(buffer, done, p);
      done := done + [p];
    }
    assert done + [] == done;
    return true, run';
  }

  lemma NothingApplied(m: Store)
    ensures Tables.Apply(m, []) == m
  {
  }

  /* ---------- INSERT ---------- */

  /** Every write the statement may buffer is among puts. */
  ghost predicate Announced(name: Bytes, t: Table, row: Row, puts: Puts) {
    |row| == |t.columns| ==>
      && (EncodeRow(Types(t), row).Some? ==> (RowKey(name, PkOf(t, row)), EncodeRow(Types(t), row).value) in puts)
      && (forall ix <- t.indexes :: IndexPut(name, t, ix, row).Some? ==> IndexPut(name, t, ix, row).value in puts)
  }

  datatype Outcome = Error | RolledBack | Buffered

  /** serialiseInsertIntoTableInput's search for the primary key. */
  method PrimaryKeyValue(t: Table, row: Row) returns (pk: Bytes)
    requires |row| == |t.columns|
    ensures pk == PkOf(t, row)
  {
    pk := [];
    for i := 0 to |row|
      invariant pk == if 0 <= t.pkPosition < i then row[t.pkPosition] else []
    {
      if i == t.pkPosition { pk := row[i]; }
    }
  }

  lemma ReadyToLeave(txn: Transaction, s0: Sys, run: seq<Step>)
    requires Buffering(txn, s0, run) && LockInv(s0)
    ensures LocksOk(txn.db.System()) && Enabled(txn.db.System(), Step.Rollback(txn.id))
  {
    LockRun(s0, run);
    ViewOf(txn);
  }

  lemma WritesAre(name: Bytes, t: Table, row: Row, buffer: Store)
    requires |row| == |t.columns| && EncodeRow(Types(t), row).Some? && IndexPuts(name, t, t.indexes, row).Some?
    ensures InsertWrites(name, t, row).Writes?
    ensures Tables.Apply(buffer, InsertWrites(name, t, row).puts) ==
            Tables.Apply(buffer[RowKey(name, PkOf(t, row)) := EncodeRow(Types(t), row).value], IndexPuts(name, t, t.indexes, row).value)
  {
    var entries := IndexPuts(name, t, t.indexes, row).value;
    var p := (RowKey(name, PkOf(t, row)), EncodeRow(Types(t), row).value);
    assert ([p] + entries)[1..] == entries;
  }

  method RollbackInsert(txn: Transaction, ghost s0: Sys, ghost run: seq<Step>) returns (ghost run': seq<Step>)
    requires Buffering(txn, s0, run) && LockInv(s0)
    modifies txn, txn.db
    ensures txn.db.Valid() && EnabledRun(s0, run') && EndOf(s0, run') == txn.db.System()
    ensures run' == run + [Step.Rollback(txn.id)] && txn.id !in txn.db.System().txns
  {
    hide EnabledRun, EndOf, LocksOk, LockInv, Enabled, Next;
    ReadyToLeave(txn, s0, run);
    RunThenStep(s0, run, txn.db.System(), Step.Rollback(txn.id));
    LeavesTxns(txn.db.System(), txn.id);
    run' := run + [Step.Rollback(txn.id)];
    var _ := txn.Rollback();
  }

  /** InsertIntoTable up to its commit. An unknown table behaves like one without columns. A refused
      row leaves the transaction as it was; a row whose index entries cannot be built is rolled back
      and dropped without an error; otherwise the buffer holds exactly the insert's writes. */
  method InsertIntoTable(txn: Transaction, tables: map<Bytes, Table>, name: Bytes, row: Row,
                         ghost s0: Sys, ghost run: seq<Step>, ghost puts: Puts)
    returns (outcome: Outcome, ghost run': seq<Step>)
    requires Buffering(txn, s0, run) && NoConflict(txn.db.System(), txn.id, puts) && LockInv(s0)
    requires Announced(name, if name in tables then tables[name] else Table([], 0, []), row, puts)
    modifies txn, txn.db
    ensures var insert := InsertWrites(name, if name in tables then tables[name] else Table([], 0, []), row);
            && (outcome.Error? <==> insert.Refused?)
            && (outcome.RolledBack? <==> insert.Dropped?)
            && (outcome.Buffered? ==> insert.Writes? && txn.buffered == Tables.Apply(old(txn.buffered), insert.puts))
    ensures txn.db.Valid() && EnabledRun(s0, run') && EndOf(s0, run') == txn.db.System()
    ensures outcome.Error? ==> run' == run && Buffering(txn, s0, run') && txn.buffered == old(txn.buffered)
    ensures outcome.Buffered? ==> Buffering(txn, s0, run')
    ensures outcome.RolledBack? ==> |run'| > 0 && run'[|run'| - 1] == Step.Rollback(txn.id) && txn.id !in txn.db.System().txns
  {
    hide EnabledRun, EndOf, NoConflict, IndexPut, Tables.Apply, LocksOk, LockInv, IndexPuts, Enabled, Next;
    var t := if name in tables then tables[name] else Table([], 0, []);
    run' := run;
    if |row| != |t.columns| { return Error, run'; }
    var value := SerialiseRow(Types(t), row);
    if value.None? { return Error, run'; }
    var pk := PrimaryKeyValue(t, row);
    run' := PutOne(txn, RowKey(name, pk), value.value, s0, run', puts);
    var ok;
    ok, run' := UpdateSecondaryIndexes(txn, name, t, row, s0, run', puts);
    if !ok {
      run' := RollbackInsert(txn, s0, run');
      return RolledBack, run';
    }
    WritesAre(name, t, row, old(txn.buffered));
    return Buffered, run';
  }

  lemma LeavesTxns(s: Sys, t: TxnId)
    requires Enabled(s, Step.Rollback(t))
    ensures t !in Next(s, Step.Rollback(t)).txns
  {
  }

  /** When a transaction that buffered one insert finishes, what is committed holds exactly one row
      more, with its index entries, and every other table is as it was. */
  lemma InsertCommits(a: Abs, id: TxnId, name: Bytes, t: Table, data: Data, row: Row)
    requires id in a.txns && WellFormed(name, t) && GoodRow(t, row) && PkOf(t, row) !in data
    requires TableIn(a.committed, name, t, data)
    requires InsertWrites(name, t, row).Writes? ==> a.txns[id].writes == Tables.Apply(map[], InsertWrites(name, t, row).puts)
    ensures TableIn(AbsNext(a, Step.Finish(id)).committed, name, t, data[PkOf(t, row) := row])
    ensures forall other, t', data' :: other != name && WellFormed(other, t') && TableIn(a.committed, other, t', data')
              ==> TableIn(AbsNext(a, Step.Finish(id)).committed, other, t', data')
  {
    hide TableIn, WellFormed, GoodRow, InsertWrites;
    InsertAddsRow(a.committed, name, t, data, row);
    var puts := InsertWrites(name, t, row).puts;
    BufferedApply(a.committed, map[], puts);
    assert a.committed + map[] == a.committed;
    forall other, t', data' | other != name && WellFormed(other, t') && TableIn(a.committed, other, t', data')
      ensures TableIn(AbsNext(a, Step.Finish(id)).committed, other, t', data')
    {
      InsertLeavesOthers(a.committed, other, t', data', name, t, row);
    }
  }
}
