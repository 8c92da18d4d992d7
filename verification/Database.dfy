/** The database object and its transactions (db/db.go, db/transaction.go). Every operation is
    shown to be a run of the state machine of module Engine. */
module Databases {
  import opened Bytes
  import opened Mvcc
  import opened Memtables
  import opened Layers
  import opened Compaction
  import opened Engine
  import opened EngineLemmas
  import opened EngineInvariant
  import opened Isolation
  import opened TransactionCodec
  import opened Wals
  import opened SsTables
  import opened SsTableFormat

  ghost function FilesOf(disk: seq<DiskFile>, runs: seq<seq<Version>>): (r: seq<File>)
    requires |disk| <= |runs|
    ensures |r| == |disk|
    ensures forall i :: 0 <= i < |disk| ==> r[i] == File(disk[i].name, runs[i])
  {
    seq(|disk|, i requires 0 <= i < |disk| => File(disk[i].name, runs[i]))
  }

  /** Two runs of steps in a row are one run. */
  lemma {:induction false} RunThenStep(s: Sys, run: seq<Step>, mid: Sys, step: Step)
    requires EnabledRun(s, run) && EndOf(s, run) == mid && Enabled(mid, step)
    ensures EnabledRun(s, run + [step]) && EndOf(s, run + [step]) == Next(mid, step)
    decreases |run|
  {
    hide Enabled, Next;
    var all := run + [step];
    if run == [] {
      assert all[1..] == [];
    } else {
      assert all[0] == run[0] && all[1..] == run[1..] + [step];
      RunThenStep(Next(s, run[0]), run[1..], mid, step);
    }
  }

  lemma FilesOfAppend(disk: seq<DiskFile>, runs: seq<seq<Version>>, f: DiskFile, es: seq<Version>)
    requires |disk| == |runs|
    ensures FilesOf(disk + [f], runs + [es]) == FilesOf(disk, runs) + [File(f.name, es)]
  {
  }

  lemma FilesOfPrefix(disk: seq<DiskFile>, runs: seq<seq<Version>>, runs': seq<seq<Version>>)
    requires |disk| <= |runs| && runs <= runs'
    ensures FilesOf(disk, runs) == FilesOf(disk, runs')
  {
  }

  lemma InputSet(disk: seq<DiskFile>, inputs: seq<DiskFile>, runs: seq<seq<Version>>)
    requires inputs <= disk && |disk| <= |runs|
    ensures AllVersions(runs[..|inputs|]) == FileSet(FilesOf(inputs, runs))
    ensures Functional(FileSet(FilesOf(disk, runs))) ==> Functional(AllVersions(runs[..|inputs|]))
  {
  }

  lemma FinishStep(s: Sys, t: TxnId)
    requires s.stage == Applied(t) && t in s.txns && !s.stale
    ensures Enabled(s, Finish(t)) && Next(s, Finish(t)) == End(s, t).(stage := Idle)
  {
  }

  lemma BeginStep(s: Sys)
    ensures Enabled(s, Begin(s.next))
    ensures Next(s, Begin(s.next)) ==
            s.(next := s.next + 1, active := s.active + {s.next}, txns := s.txns[s.next := Txn(s.active + {s.next}, map[], [])])
  {
  }

  lemma FlushSteps(s: Sys)
    requires Enabled(s, FlushWrite)
    ensures Enabled(Next(s, FlushWrite), FlushClear)
    ensures Next(s, FlushWrite) ==
            s.(files := s.files + [File(s.nextFile, s.mem)], nextFile := s.nextFile + 1, mem := [], stale := true)
  {
  }

  lemma FlushReady(s: Sys)
    requires !s.stale && s.stage.Applied?
    ensures Enabled(s, FlushWrite)
  {
  }

  lemma ClearSteps(s: Sys)
    requires Enabled(s, FlushClear)
    ensures Next(s, FlushClear) == s.(wal := [], stale := false)
  {
  }

  /** The steps of a flush, if the memtable has reached its limit. */
  ghost function FlushOf(mem: seq<Version>): seq<Step> {
    if Size(mem) >= 1000 then [FlushWrite] + [FlushClear] else []
  }

  /** The smallest active id, or the largest 64-bit number if no smaller id is active. */
  ghost predicate IsHorizon(active: set<TxnId>, m: nat) {
    if exists t :: t in active && t < TWO_64 - 1 then m in active && forall t :: t in active ==> m <= t
    else m == TWO_64 - 1
  }

  /** For ids below the largest 64-bit number: the smallest active id, or that number if none is active. */
  lemma HorizonIs(active: set<TxnId>, m: nat)
    requires forall t :: t in active ==> t < 0xFFFF_FFFF_FFFF_FFFF
    ensures IsHorizon(active, m) <==> if active == {} then m == 0xFFFF_FFFF_FFFF_FFFF else m in active && forall t :: t in active ==> m <= t
  {
    if active != {} {
      var t :| t in active;
      assert t < TWO_64 - 1;
    }
  }

  lemma CompactWanted(s: Sys)
    ensures Enabled(s, CompactStart(0)) <==> s.job.NoJob? && |s.files| >= 4
  {
  }

  lemma LeaveReady(s: Sys, t: TxnId)
    requires LocksOk(s) && t in s.txns && t != 0
    ensures !Inconsistent(s.locks, t, s.txns[t].locked)
    ensures var keys := s.txns[t].locked;
            && (forall i, j :: 0 <= i < j < |keys| ==> keys[i] != keys[j])
            && (forall k :: k in keys ==> k in s.locks)
  {
  }

  lemma LogApplySteps(s: Sys, t: TxnId, order: seq<(Bytes, Bytes)>)
    requires t in s.txns && s.stage == Idle && !s.stale && Listing(order, s.txns[t].writes)
    ensures Enabled(s, Log(t, order)) && Enabled(Next(s, Log(t, order)), Apply(t))
    ensures Next(Next(s, Log(t, order)), Apply(t)) ==
            s.(wal := s.wal + [Record(t, order)], mem := PutAll(s.mem, order, t), stage := Applied(t))
  {
  }

  lemma ReleaseNothing(t: TxnId)
    ensures forall locks :: Release(locks, t, []) == locks
  {
  }

  lemma ReleaseStep(locks: map<Bytes, LocksAcquired>, t: TxnId, keys: seq<Bytes>)
    requires keys != [] && keys[0] in locks
    ensures var l := locks[keys[0]];
            Release(locks, t, keys) ==
            Release(locks[keys[0] := if l.writer == t then l.(writer := 0) else l.(readers := Without(l.readers, t))], t, keys[1..])
  {
  }

  lemma InvLocks(s: Sys)
    requires Inv(s)
    ensures LocksOk(s)
  {
  }

  lemma SameLocksOk(s: Sys, s': Sys)
    requires LocksOk(s) && s'.locks == s.locks && s'.txns == s.txns
    ensures LocksOk(s')
  {
  }

  lemma OneStep(s: Sys, step: Step)
    requires Enabled(s, step)
    ensures EnabledRun(s, [step]) && EndOf(s, [step]) == Next(s, step)
  {
  }

  lemma LogGrowsBy(records: seq<Record>, rec: Record)
    ensures LogBytes(Payloads(records + [rec])) == LogBytes(Payloads(records)) + Frame(EncodePayload(rec))
  {
    hide EncodePayload, Frame;
    LogAppend(Payloads(records), EncodePayload(rec));
    assert Payloads(records + [rec]) == Payloads(records) + [EncodePayload(rec)];
  }

  /** The order in which a transaction's distinct keys enter the memtable does not matter. */
  lemma PutOrderIrrelevant(mem: seq<Version>, a: seq<(Bytes, Bytes)>, b: seq<(Bytes, Bytes)>, writes: map<Bytes, Bytes>, t: TxnId)
    requires StrictlySorted(mem) && Listing(a, writes) && Listing(b, writes)
    requires forall v :: v in mem ==> v.txn != t
    ensures PutAll(mem, a, t) == PutAll(mem, b, t)
  {
    PutAllElems(mem, a, t);
    PutAllElems(mem, b, t);
    ListingSet(a, writes, t);
    ListingSet(b, writes, t);
    SortedUnique(PutAll(mem, a, t), PutAll(mem, b, t));
  }

  lemma {:induction false} PutAllAppend(mem: seq<Version>, a: seq<(Bytes, Bytes)>, w: (Bytes, Bytes), t: TxnId)
    ensures PutAll(mem, a + [w], t) == Upsert(PutAll(mem, a, t), Version(w.0, w.1, t))
    decreases |a|
  {
    hide Upsert;
    if a == [] {
      assert [] + [w] == [w] && [w][1..] == [];
    } else {
      assert (a + [w])[1..] == a[1..] + [w];
      PutAllAppend(Upsert(mem, Version(a[0].0, a[0].1, t)), a[1..], w, t);
    }
  }

  class Transaction {
    const id: TxnId
    const db: Database
    const snapshot: set<TxnId>
    var buffered: map<Bytes, Bytes>
    var lockAcquiredKeys: seq<Bytes>

    constructor (id: TxnId, db: Database, snapshot: set<TxnId>)
      ensures this.id == id && this.db == db && this.snapshot == snapshot
      ensures buffered == map[] && lockAcquiredKeys == []
    {
      this.id, this.db, this.snapshot := id, db, snapshot;
      buffered, lockAcquiredKeys := map[], [];
    }

    ghost function View(): Txn
      reads this
    {
      Txn(snapshot, buffered, lockAcquiredKeys)
    }

    /** A running transaction of a sound database. */
    ghost predicate Running()
      reads db, db.wal, db.mem, db.sst, db.live.Values
    {
      db.Valid() && id in db.live && db.live[id] == this && id != 0
    }

    /** tryAcquireWriteLock: refused if another transaction writes the key; a lock already held
        is not listed again. */
    method TryAcquireWriteLock(key: Bytes) returns (ok: bool)
      requires id != 0
      modifies this`lockAcquiredKeys, db`locks
      ensures ok <==> !(key in old(db.locks) && old(db.locks)[key].writer != 0 && old(db.locks)[key].writer != id)
      ensures !ok ==> db.locks == old(db.locks) && lockAcquiredKeys == old(lockAcquiredKeys)
      ensures ok ==>
                var held := key in old(db.locks) && old(db.locks)[key].writer == id;
                && db.locks == old(db.locks)[key := LocksAcquired(id, if key in old(db.locks) then old(db.locks)[key].readers else [])]
                && lockAcquiredKeys == if held then old(lockAcquiredKeys) else old(lockAcquiredKeys) + [key]
    {
      var acquired := LocksAcquired(0, []);
      if key in db.locks {
        acquired := db.locks[key];
        if acquired.writer != 0 && acquired.writer != id { return false; }
        if acquired.writer == id {
          assert db.locks == db.locks[key := LocksAcquired(id, acquired.readers)];
          return true;
        }
      }
      lockAcquiredKeys := lockAcquiredKeys + [key];
      db.locks := db.locks[key := acquired.(writer := id)];
      return true;
    }

    method Put(key: Bytes, value: Bytes) returns (ok: bool)
      requires Running() && Enabled(db.System(), Step.Put(id, key, value))
      modifies this, db`locks
      ensures Running()
      ensures db.System() == Next(old(db.System()), Step.Put(id, key, value))
      ensures ok <==> !old(LockedByOther(db.System(), id, key))
      ensures buffered == if ok then old(buffered)[key := value] else old(buffered)
    {
      hide LogBytes, ListsAligned, StrictlySorted, Size, FilesOf;
      ok := TryAcquireWriteLock(key);
      if ok {
        buffered := buffered[key := value];
      }
      assert db.Txns() == old(db.Txns())[id := View()];
    }

    /** Get: own writes first, then the memtable over what the indexed lookups reach of each file.
        That is the layered read of the machine whenever each lookup is exact for this reader. */
    method Get(key: Bytes) returns (value: Result<Bytes>)
      requires Running()
      ensures key in buffered ==> value == Ok(buffered[key])
      ensures key !in buffered ==> value == Ok(StoreGet(db.mem.entries, db.ReachedRuns(key), key, Reader(id, snapshot)))
      ensures db.FilesExact(key, Reader(id, snapshot)) ==> value == Ok(TxnGet(db.System(), id, key))
    {
      if key in buffered { return Ok(buffered[key]); }
      var r := Reader(id, snapshot);
      var v, found := db.mem.Get(key, r);
      if found { return Ok(v); }
      value := db.sst.Get(key, r);
      db.RunsAre();
    }

    /** releaseAllLocks. The inconsistency branch is taken exactly as Inconsistent says. */
    method ReleaseAllLocks() returns (inconsistent: bool)
      requires id != 0
      requires forall i, j :: 0 <= i < j < |lockAcquiredKeys| ==> lockAcquiredKeys[i] != lockAcquiredKeys[j]
      requires forall k :: k in lockAcquiredKeys ==> k in db.locks
      modifies this`lockAcquiredKeys, db`locks
      ensures db.locks == Release(old(db.locks), id, old(lockAcquiredKeys)) && lockAcquiredKeys == []
      ensures inconsistent <==> Inconsistent(old(db.locks), id, old(lockAcquiredKeys))
      ensures inconsistent <==> exists k <- old(lockAcquiredKeys) :: old(db.locks)[k].writer != id && id !in old(db.locks)[k].readers
    {
      hide Release, Without;
      ghost var all := Release(db.locks, id, lockAcquiredKeys);
      ReleaseNothing(id);
      ghost var keys := lockAcquiredKeys;
      assert keys[0..] == keys;
      inconsistent := false;
      for i := 0 to |lockAcquiredKeys|
        invariant lockAcquiredKeys == keys
        invariant all == Release(db.locks, id, keys[i..])
        invariant db.locks.Keys == old(db.locks).Keys
        invariant forall k :: k in db.locks && k !in keys[..i] ==> db.locks[k] == old(db.locks)[k]
        invariant inconsistent <==> exists j :: 0 <= j < i && old(db.locks)[keys[j]].writer != id && id !in old(db.locks)[keys[j]].readers
      {
        var key := lockAcquiredKeys[i];
        assert keys[i..][0] == key && keys[i..][1..] == keys[i + 1..];
        assert key !in keys[..i];
        ReleaseStep(db.locks, id, keys[i..]);
        var acquired := db.locks[key];
        if acquired.writer == id {
          db.locks := db.locks[key := acquired.(writer := 0)];
        } else {
          var updated, found := DropReader(acquired.readers, id);
          if !found { inconsistent := true; }
          db.locks := db.locks[key := acquired.(readers := updated)];
        }
        assert keys[..i + 1] == keys[..i] + [key];
      }
      lockAcquiredKeys := [];
    }

    method Rollback() returns (inconsistent: bool)
      requires Running() && Enabled(db.System(), Step.Rollback(id)) && LocksOk(db.System())
      modifies this, db
      ensures db.Valid() && !inconsistent
      ensures db.System() == Next(old(db.System()), Step.Rollback(id))
      ensures buffered == map[] && lockAcquiredKeys == []
    {
      inconsistent := Leave(db.stage);
    }

    /** One log record for the whole buffer. */
    method WriteSingleWalEntryForCommit() returns (ghost order: seq<(Bytes, Bytes)>)
      requires Running()
      modifies db`records, db.wal
      ensures Running() && Listing(order, buffered) && db.Txns() == old(db.Txns())
      ensures db.System() == old(db.System()).(wal := old(db.records) + [Record(id, order)])
    {
      hide LogBytes, ListsAligned, StrictlySorted, Size, EncodePayload, Frame, Listing, Payloads, FilesOf;
      ghost var s := db.System();
      var payload: Bytes;
      payload, order := SerialiseTransactionCommitPayload(buffered, id);
      db.wal.WriteEntry(payload);
      LogGrowsBy(db.records, Record(id, order));
      db.records := db.records + [Record(id, order)];
      assert db.Txns() == s.txns;
    }

    /** The first half of Commit: one log record for the whole buffer, then the memtable. */
    method LogAndApply() returns (ghost order: seq<(Bytes, Bytes)>)
      requires Running() && db.stage == Idle && !db.stale
      requires forall v :: v in db.mem.entries ==> v.txn != id
      modifies db`records, db`stage, db.wal, db.mem
      ensures Running() && Listing(order, buffered)
      ensures Enabled(old(db.System()), Step.Log(id, order))
      ensures Enabled(Next(old(db.System()), Step.Log(id, order)), Step.Apply(id))
      ensures db.System() == Next(Next(old(db.System()), Step.Log(id, order)), Step.Apply(id))
      ensures db.stage == Applied(id) && !db.stale && db.Txns() == old(db.Txns()) && db.locks == old(db.locks)
      ensures db.mem.entries == PutAll(old(db.mem.entries), order, id)
    {
      hide LogBytes, ListsAligned, StrictlySorted, Size, EncodePayload, Frame, PutAll, Listing, Payloads, FilesOf, Enabled, Next;
      ghost var s := db.System();
      ghost var mem0 := db.mem.entries;
      order := WriteSingleWalEntryForCommit();
      ghost var second := ApplyBuffer();
      PutOrderIrrelevant(mem0, order, second, buffered, id);
      db.stage := Applied(id);
      assert db.Txns() == s.txns;
      LogApplySteps(s, id, order);
    }

    /** The memtable loop of Commit, in some order of the map. */
    method ApplyBuffer() returns (ghost order: seq<(Bytes, Bytes)>)
      requires db.mem.Valid()
      modifies db.mem
      ensures db.mem.Valid() && Listing(order, buffered)
      ensures db.mem.entries == PutAll(old(db.mem.entries), order, id)
    {
      hide Upsert, StrictlySorted, Size;
      order := [];
      var keys := buffered.Keys;
      while keys != {}
        invariant keys <= buffered.Keys && db.mem.Valid()
        invariant db.mem.entries == PutAll(old(db.mem.entries), order, id)
        invariant forall i, j :: 0 <= i < j < |order| ==> order[i].0 != order[j].0
        invariant forall i :: 0 <= i < |order| ==> order[i].0 in buffered && order[i].0 !in keys && buffered[order[i].0] == order[i].1
        invariant forall k :: k in buffered && k !in keys ==> (k, buffered[k]) in order
        decreases keys
      {
        var k :| k in keys;
        PutAllAppend(old(db.mem.entries), order, (k, buffered[k]), id);
        db.mem.Put(k, buffered[k], id);
        order := order + [(k, buffered[k])];
        keys := keys - {k};
      }
    }

    /** The middle of Commit: flush if the memtable is full. */
    method FlushIfFull(ghost s0: Sys, ghost run0: seq<Step>) returns (compact: Option<nat>, ghost run: seq<Step>)
      requires Running() && db.stage == Applied(id) && !db.stale && Storable(db.mem.entries)
      requires EnabledRun(s0, run0) && EndOf(s0, run0) == db.System()
      modifies db`stale, db`records, db.wal, db.mem, db.sst
      ensures Running() && db.stage == Applied(id) && !db.stale
      ensures db.locks == old(db.locks) && db.Txns() == old(db.Txns())
      ensures EnabledRun(s0, run) && EndOf(s0, run) == db.System()
      ensures run == run0 + FlushOf(old(db.mem.entries))
      ensures compact.Some? <==> Size(old(db.mem.entries)) >= 1000 && Enabled(db.System(), CompactStart(0))
      ensures compact.Some? ==> IsHorizon(db.activeTransactions, compact.value)
    {
      hide LogBytes, ListsAligned, StrictlySorted, Storable, EnabledRun, EndOf, Size, Enabled, Next, FilesOf;
      compact, run := None, run0;
      var full := db.mem.ShouldFlush();
      if full {
        ghost var s := db.System();
        FlushReady(s);
        var wanted := db.Flush();
        RunThenStep(s0, run0, s, FlushWrite);
        RunThenStep(s0, run0 + [FlushWrite], Next(s, FlushWrite), FlushClear);
        run := run0 + [FlushWrite] + [FlushClear];
        if wanted {
          var m := db.MinActive();
          compact := Some(m);
        }
      }
      assert run0 + [] == run0;
    }

    /** Commit: a run of the machine that logs the buffer in some order, applies it, flushes exactly if
        the memtable has then reached its limit, and ends the transaction. Exactly if it has flushed and
        a compaction is due, the horizon to pass is returned: the smallest active id. */
    method Commit() returns (compact: Option<nat>, ghost order: seq<(Bytes, Bytes)>, ghost run: seq<Step>)
      requires Running() && Inv(db.System()) && db.stage == Idle && !db.stale
      requires forall order :: Listing(order, buffered) ==> Storable(PutAll(db.mem.entries, order, id))
      modifies this, db, db.wal, db.mem, db.sst
      ensures db.Valid() && id !in db.live && buffered == map[] && lockAcquiredKeys == []
      ensures EnabledRun(old(db.System()), run) && db.System() == EndOf(old(db.System()), run)
      ensures Listing(order, old(buffered))
      ensures var applied := PutAll(old(db.mem.entries), order, id);
              && run == [Step.Log(id, order)] + [Step.Apply(id)] + FlushOf(applied) + [Step.Finish(id)]
              && (compact.Some? <==> Size(applied) >= 1000 && Enabled(db.System(), CompactStart(0)))
      ensures compact.Some? ==> IsHorizon(old(db.activeTransactions), compact.value)
    {
      ghost var s0 := db.System();
      NoOwnVersions();
      InvLocks(s0);
      hide Inv, LocksOk, Enabled, Next, LogBytes, ListsAligned, StrictlySorted, Size, Listing, Storable, PutAll, EnabledRun, EndOf;
      hide FlushOf, IsHorizon, FilesOf;
      compact, order, run := LogApplyAndFlush();
      CompactWanted(db.System());
      run := FinishCommit(s0, run);
      CompactWanted(db.System());
    }

    /** Everything in Commit up to the release of the locks. */
    method LogApplyAndFlush() returns (compact: Option<nat>, ghost order: seq<(Bytes, Bytes)>, ghost run: seq<Step>)
      requires Running() && LocksOk(db.System()) && db.stage == Idle && !db.stale
      requires forall v :: v in db.mem.entries ==> v.txn != id
      requires forall order :: Listing(order, buffered) ==> Storable(PutAll(db.mem.entries, order, id))
      modifies db`records, db`stage, db`stale, db.wal, db.mem, db.sst
      ensures Running() && LocksOk(db.System()) && db.stage == Applied(id) && !db.stale
      ensures EnabledRun(old(db.System()), run) && db.System() == EndOf(old(db.System()), run)
      ensures Listing(order, buffered)
      ensures var applied := PutAll(old(db.mem.entries), order, id);
              && run == [Step.Log(id, order)] + [Step.Apply(id)] + FlushOf(applied)
              && (compact.Some? <==> Size(applied) >= 1000 && Enabled(db.System(), CompactStart(0)))
      ensures compact.Some? ==> IsHorizon(db.activeTransactions, compact.value)
    {
      hide Inv, LocksOk, Enabled, Next, LogBytes, ListsAligned, StrictlySorted, Size, Listing, Storable, PutAll, EnabledRun, EndOf;
      hide FlushOf, IsHorizon, FilesOf;
      ghost var s0 := db.System();
      order := LogAndApply();
      ghost var first := [Step.Log(id, order)];
      OneStep(s0, first[0]);
      RunThenStep(s0, first, Next(s0, first[0]), Step.Apply(id));
      compact, run := FlushIfFull(s0, first + [Step.Apply(id)]);
      SameLocksOk(s0, db.System());
    }

    /** The end of Commit: release everything and leave the active set. */
    method FinishCommit(ghost s0: Sys, ghost run0: seq<Step>) returns (ghost run: seq<Step>)
      requires Running() && db.stage == Applied(id) && !db.stale && LocksOk(db.System())
      requires EnabledRun(s0, run0) && EndOf(s0, run0) == db.System()
      modifies this, db`locks, db`activeTransactions, db`live, db`stage
      ensures db.Valid() && id !in db.live && run == run0 + [Step.Finish(id)]
      ensures buffered == map[] && lockAcquiredKeys == []
      ensures EnabledRun(s0, run) && EndOf(s0, run) == db.System()
      ensures db.System().files == old(db.System().files) && db.System().job == old(db.System().job)
    {
      hide LocksOk, Enabled, Next, LogBytes, ListsAligned, StrictlySorted, Size, Release, EnabledRun, EndOf, FilesOf;
      ghost var s := db.System();
      FinishStep(s, id);
      RunThenStep(s0, run0, s, Step.Finish(id));
      run := run0 + [Step.Finish(id)];
      var _ := Leave(Idle);
    }

    lemma NoOwnVersions()
      requires Running() && Inv(db.System()) && db.stage == Idle
      ensures forall v :: v in db.mem.entries ==> v.txn != id
    {
    }

    /** What Rollback and the end of Commit share. */
    method Leave(ghost stage: Stage) returns (inconsistent: bool)
      requires Running() && LocksOk(db.System())
      modifies this, db`locks, db`activeTransactions, db`live, db`stage
      ensures db.Valid() && !inconsistent && id !in db.live
      ensures db.System() == End(old(db.System()), id).(stage := stage)
      ensures buffered == map[] && lockAcquiredKeys == []
    {
      hide LogBytes, ListsAligned, StrictlySorted, Size, FilesOf, Release, LocksOk;
      ghost var s := db.System();
      inconsistent := ReleaseOwnLocks();
      ghost var freed := db.System().txns;
      LeaveActive(stage);
      assert freed - {id} == s.txns - {id};
    }

    /** The locks go, and with them the list of keys; nothing else changes. */
    method ReleaseOwnLocks() returns (inconsistent: bool)
      requires Running() && LocksOk(db.System())
      modifies this`lockAcquiredKeys, db`locks
      ensures Running() && !inconsistent && lockAcquiredKeys == []
      ensures var s := old(db.System());
              db.System() == s.(locks := Release(s.locks, id, s.txns[id].locked), txns := s.txns[id := View()])
    {
      hide LogBytes, ListsAligned, StrictlySorted, Size, FilesOf, Release, LocksOk, Inconsistent;
      LeaveReady(db.System(), id);
      inconsistent := ReleaseAllLocks();
      assert db.Txns() == old(db.Txns())[id := View()];
    }

    /** The buffer is dropped and the transaction leaves the active set. */
    method LeaveActive(ghost stage: Stage)
      requires Running()
      modifies this`buffered, db`activeTransactions, db`live, db`stage
      ensures db.Valid() && id !in db.live
      ensures var s := old(db.System());
              db.System() == s.(active := s.active - {id}, txns := s.txns - {id}, stage := stage)
      ensures buffered == map[]
    {
      hide LogBytes, ListsAligned, StrictlySorted, Size, FilesOf;
      buffered := map[];
      db.activeTransactions := db.activeTransactions - {id};
      db.live := db.live - {id};
      db.stage := stage;
      assert db.Txns() == old(db.Txns()) - {id};
    }
  }

  /** The inner loop over readerTxnIds. */
  method DropReader(readers: seq<TxnId>, id: TxnId) returns (updated: seq<TxnId>, found: bool)
    ensures updated == Without(readers, id) && (found <==> id in readers)
  {
    updated, found := [], false;
    assert readers[..0] == [] && readers[0..] == readers;
    for i := 0 to |readers|
      invariant updated + Without(readers[i..], id) == Without(readers, id)
      invariant found <==> id in readers[..i]
    {
      assert readers[i..][1..] == readers[i + 1..];
      assert readers[..i + 1] == readers[..i] + [readers[i]];
      if readers[i] == id {
        found := true;
      } else {
        assert updated + ([readers[i]] + Without(readers[i + 1..], id)) == (updated + [readers[i]]) + Without(readers[i + 1..], id);
        updated := updated + [readers[i]];
      }
    }
    assert readers[..|readers|] == readers;
  }

  class Database {
    const wal: Wal
    const mem: Memtable
    const sst: SsTable
    var nextTransactionId: TxnId
    var activeTransactions: set<TxnId>
    var locks: map<Bytes, LocksAcquired>
    ghost var live: map<TxnId, Transaction>
    ghost var records: seq<Record>
    ghost var stage: Stage
    ghost var stale: bool
    ghost var horizon: nat

    ghost predicate Valid()
      reads this, wal, mem, sst, live.Values
    {
      && wal.Valid() && wal.contents == LogBytes(Payloads(records))
      && mem.Valid() && sst.Valid()
      && (forall t :: t in live ==> live[t].id == t && live[t].db == this)
    }

    ghost function Txns(): map<TxnId, Txn>
      reads this, live.Values
    {
      map t | t in live :: live[t].View()
    }

    ghost function System(): Sys
      requires Valid()
      reads this, wal, mem, sst, live.Values
    {
      ListsFacts(sst.files, sst.indexBlocks, sst.indexOffsets, sst.manifestNames, sst.runs, sst.blockLength, sst.nextFileId);
      Sys(nextTransactionId, activeTransactions, locks, Txns(), mem.entries,
          FilesOf(sst.files, sst.runs), sst.nextFileId, records, stage, stale,
          if sst.compacting then Job(horizon, FilesOf(sst.inputs, sst.runs)) else NoJob)
    }

    /** What the indexed lookups of the key reach of each file. */
    ghost function ReachedRuns(key: Bytes): seq<seq<Version>>
      requires Valid()
      reads this, wal, mem, sst, live.Values
    {
      ListsFacts(sst.files, sst.indexBlocks, sst.indexOffsets, sst.manifestNames, sst.runs, sst.blockLength, sst.nextFileId);
      ReachedAll(sst.runs, sst.blockLength, sst.indexBlocks, key)
    }

    /** No indexed lookup of the key misses a version this reader must see. */
    ghost predicate FilesExact(key: Bytes, r: Reader)
      requires Valid()
      reads this, wal, mem, sst, live.Values
    {
      ListsFacts(sst.files, sst.indexBlocks, sst.indexOffsets, sst.manifestNames, sst.runs, sst.blockLength, sst.nextFileId);
      forall i :: 0 <= i < |sst.runs| ==> LookupExact(sst.runs[i], sst.blockLength, sst.indexBlocks[i], key, r)
    }

    /** Every version of the key, in every file, is reached by the lookup. */
    ghost predicate FilesReach(key: Bytes)
      requires Valid()
      reads this, wal, mem, sst, live.Values
    {
      ListsFacts(sst.files, sst.indexBlocks, sst.indexOffsets, sst.manifestNames, sst.runs, sst.blockLength, sst.nextFileId);
      forall i :: 0 <= i < |sst.runs| ==> KeyReached(sst.runs[i], sst.blockLength, sst.indexBlocks[i], key)
    }

    lemma RunFacts(i: nat)
      requires Valid() && i < |sst.runs|
      ensures |sst.indexBlocks| == |sst.runs| && |System().files| == |sst.runs|
      ensures IsBlockIndex(sst.runs[i], sst.blockLength, sst.indexBlocks[i]) && Sorted(sst.runs[i])
      ensures Elems(sst.runs[i]) <= FileSet(System().files) <= Stored(System())
    {
      RunsAre();
      var files := System().files;
      assert Aligned(sst.files[i], sst.indexBlocks[i], sst.indexOffsets[i], sst.manifestNames[i], sst.runs[i], sst.blockLength);
      forall v | v in sst.runs[i] ensures v in FileSet(files) { assert v in files[i].entries; }
    }

    /** Point reads of a key are exact for every reader exactly if each lookup reaches all its versions. */
    lemma FilesExactExactly(key: Bytes)
      requires Valid() && Functional(Stored(System()))
      ensures (forall r :: FilesExact(key, r)) <==> FilesReach(key)
    {
      hide Reached, LookupExact, KeyReached, ListsAligned, Stored, LogBytes;
      forall i | 0 <= i < |sst.runs|
        ensures |sst.indexBlocks| == |sst.runs|
        ensures (forall r :: LookupExact(sst.runs[i], sst.blockLength, sst.indexBlocks[i], key, r))
                <==> KeyReached(sst.runs[i], sst.blockLength, sst.indexBlocks[i], key)
      {
        RunFacts(i);
        LookupsExact(sst.runs[i], sst.blockLength, sst.indexBlocks[i], key);
      }
      if forall r :: FilesExact(key, r) {
        forall i, r | 0 <= i < |sst.runs| ensures LookupExact(sst.runs[i], sst.blockLength, sst.indexBlocks[i], key, r) {
          assert FilesExact(key, r);
        }
      }
    }

    /** They are exact for a key with at most one stored version. */
    lemma OnceIsExact(key: Bytes, r: Reader)
      requires Valid() && forall v, w :: v in Stored(System()) && w in Stored(System()) && v.key == key && w.key == key ==> v == w
      ensures FilesExact(key, r)
    {
      hide Reached, LookupExact, KeyReached, ListsAligned, Stored, LogBytes;
      forall i | 0 <= i < |sst.runs|
        ensures |sst.indexBlocks| == |sst.runs|
        ensures LookupExact(sst.runs[i], sst.blockLength, sst.indexBlocks[i], key, r)
      {
        RunFacts(i);
        assert forall v :: v in sst.runs[i] ==> v in Elems(sst.runs[i]);
        OnceIsReached(sst.runs[i], sst.blockLength, sst.indexBlocks[i], key);
        ReachedIsExact(sst.runs[i], sst.blockLength, sst.indexBlocks[i], key, r);
      }
    }

    lemma RunsAre()
      requires Valid()
      ensures Runs(System().files) == sst.runs
    {
    }

    constructor (wal: Wal, mem: Memtable, sst: SsTable, next: TxnId, ghost records: seq<Record>)
      requires wal.Valid() && mem.Valid() && sst.Valid() && !sst.compacting
      ensures this.wal == wal && this.mem == mem && this.sst == sst && nextTransactionId == next
      ensures wal.contents == LogBytes(Payloads(records)) ==> Valid() && System() == Sys(next, {}, map[], map[], mem.entries, FilesOf(sst.files, sst.runs), sst.nextFileId, records, Idle, false, NoJob)
    {
      this.wal, this.mem, this.sst, this.records := wal, mem, sst, records;
      nextTransactionId, activeTransactions, locks := next, {}, map[];
      live, stage, stale, horizon := map[], Idle, false, 0;
      new;
      ListsFacts(sst.files, sst.indexBlocks, sst.indexOffsets, sst.manifestNames, sst.runs, sst.blockLength, sst.nextFileId);
    }

    method Begin() returns (txn: Transaction)
      requires Valid()
      modifies this`nextTransactionId, this`activeTransactions, this`live
      ensures Valid() && fresh(txn) && txn.id == old(nextTransactionId) && txn.db == this
      ensures txn.id in live && live[txn.id] == txn
      ensures nextTransactionId == old(nextTransactionId) + 1 && activeTransactions == old(activeTransactions) + {txn.id}
      ensures txn.snapshot == activeTransactions && txn.buffered == map[] && txn.lockAcquiredKeys == []
      ensures System() == Next(old(System()), Step.Begin(old(nextTransactionId)))
    {
      hide LogBytes, ListsAligned, StrictlySorted, Size, Next, Enabled, FilesOf;
      ghost var s := System();
      activeTransactions := activeTransactions + {nextTransactionId};
      txn := new Transaction(nextTransactionId, this, activeTransactions);
      live := live[nextTransactionId := txn];
      nextTransactionId := nextTransactionId + 1;
      assert Txns() == s.txns[txn.id := Txn(s.active + {s.next}, map[], [])];
      BeginStep(s);
    }

    /** flushMemtableToSsTable and the clearing of the memtable; whether a compaction is due. */
    method FlushToFile() returns (compact: bool)
      requires Valid() && Enabled(System(), FlushWrite) && Storable(mem.entries)
      modifies this`stale, mem, sst
      ensures Valid() && stage == old(stage) && locks == old(locks) && Txns() == old(Txns())
      ensures System() == Next(old(System()), FlushWrite)
      ensures compact <==> Enabled(System(), CompactStart(0))
    {
      hide LogBytes, ListsAligned, StrictlySorted, Size, Storable, Next, Enabled, FilesOf;
      ghost var s := System();
      FlushSteps(s);
      ListsFacts(sst.files, sst.indexBlocks, sst.indexOffsets, sst.manifestNames, sst.runs, sst.blockLength, sst.nextFileId);
      if sst.compacting { FilesOfPrefix(sst.inputs, sst.runs, sst.runs + [mem.entries]); }
      ghost var files0, runs0, es := sst.files, sst.runs, mem.entries;
      sst.Write(mem.entries);
      FilesOfAppend(files0, runs0, sst.files[|files0|], es);
      assert sst.files == files0 + [sst.files[|files0|]];
      compact := sst.ShouldRunCompaction();
      mem.Clear();
      stale := true;
      assert Txns() == s.txns;
      CompactWanted(System());
    }

    method ClearLog()
      requires Valid() && Enabled(System(), FlushClear)
      modifies this`stale, this`records, wal
      ensures Valid() && stage == old(stage) && locks == old(locks) && Txns() == old(Txns()) && !stale
      ensures System() == Next(old(System()), FlushClear)
    {
      hide LogBytes, ListsAligned, StrictlySorted, Size, FilesOf;
      ghost var s := System();
      wal.Clear();
      stale, records := false, [];
      EmptyLog();
      assert Txns() == s.txns;
    }

    /** createSsTableAndClearWalAndMemTable. */
    method Flush() returns (compact: bool)
      requires Valid() && Enabled(System(), FlushWrite) && Storable(mem.entries)
      modifies this`stale, this`records, wal, mem, sst
      ensures Valid() && stage == old(stage) && locks == old(locks) && Txns() == old(Txns()) && !stale
      ensures Enabled(Next(old(System()), FlushWrite), FlushClear)
      ensures System() == Next(Next(old(System()), FlushWrite), FlushClear)
      ensures compact <==> Enabled(System(), CompactStart(0))
    {
      hide LogBytes, ListsAligned, StrictlySorted, Size, Storable, Next, Enabled, FilesOf;
      FlushSteps(System());
      compact := FlushToFile();
      CompactWanted(System());
      ClearSteps(System());
      ClearLog();
      CompactWanted(System());
    }

    /** The smallest active id, or the largest 64-bit id if none is active. */
    method MinActive() returns (m: nat)
      ensures IsHorizon(activeTransactions, m)
    {
      m := TWO_64 - 1;
      var todo := activeTransactions;
      while todo != {}
        invariant todo <= activeTransactions
        invariant forall t :: t in activeTransactions && t !in todo ==> m <= t
        invariant m == TWO_64 - 1 || m in activeTransactions
        invariant m <= TWO_64 - 1
        decreases todo
      {
        var t :| t in todo;
        if t < m { m := t; }
        todo := todo - {t};
      }
    }

    /** RunCompaction, first half. */
    method StartCompaction(m: nat) returns (taken: seq<DiskFile>)
      requires Valid() && Enabled(System(), CompactStart(m))
      modifies this`horizon, sst`compacting, sst`inputs
      ensures Valid() && taken == sst.inputs
      ensures System() == Next(old(System()), CompactStart(m))
    {
      taken := sst.StartCompaction();
      horizon := m;
    }

    /** RunCompaction, second half: one CompactFinish step of the machine, writing a sorted
        listing of exactly the versions compaction keeps. */
    method FinishCompaction(taken: seq<DiskFile>, m: nat) returns (ghost out: seq<Version>)
      requires Valid() && sst.compacting && taken == sst.inputs && m == horizon && FilesOk(System()) && Functional(FileSet(System().files))
      requires |EncodeAll(NewestFirst(sst.runs[..|taken|]))| < TWO_32
      modifies sst
      ensures Valid()
      ensures Enabled(old(System()), CompactFinish(out))
      ensures System() == Next(old(System()), CompactFinish(out))
    {
      hide LogBytes, StrictlySorted, Size, EncodeAll, NewestFirst, Functional, Compact, Sorted, ListsAligned;
      ghost var s := System();
      ListsFacts(sst.files, sst.indexBlocks, sst.indexOffsets, sst.manifestNames, sst.runs, sst.blockLength, sst.nextFileId);
      InputSet(sst.files, sst.inputs, sst.runs);
      out := sst.FinishCompaction(taken, m);
      SwapKeepsNewFiles(s.files, s.job.inputs, File(s.nextFile, out));
      assert System().files == [File(s.nextFile, out)] + s.files[|taken|..];
    }
  }

  /** The records wholly inside the cut. */
  ghost function WholeRecords(records: seq<Record>, cut: nat): seq<Record> {
    records[..WholeFrames(Payloads(records), cut)]
  }

  /** The database has recovered exactly these records. */
  ghost predicate Holding(db: Database, records: seq<Record>)
    reads db, db.mem
  {
    db.mem.entries == Replay(records) && db.nextTransactionId == MaxId(records) + 1
  }

  /** It stands where the machine stands after a Restart of s. */
  ghost predicate Restarted(db: Database, s: Sys)
    reads db, db.wal, db.mem, db.sst, db.live.Values
  {
    db.Valid() && db.System() == Next(s, Restart)
  }

  /** NewDB on a log cut at any byte by a crash: the log is replayed, every index is rebuilt from its
      file, ids restart after the largest id in the log. Opening succeeds exactly as OpensAt says. If
      the cut fell on a record border, this is one Restart of the machine on the records before it; if
      it fell after a length or a payload, those bytes stay in the log, in front of later records. */
  method NewDB(log: Bytes, disk: seq<DiskFile>, nextFile: nat, limit: int, ghost s: Sys, ghost cut: nat,
               ghost written: seq<seq<Version>>, ghost index: seq<seq<IndexEntry>>)
    returns (ok: bool, db: Database?)
    requires AllEncodable(s.wal) && cut <= |LogBytes(Payloads(s.wal))| && log == LogBytes(Payloads(s.wal))[..cut]
    requires WrittenFiles(disk, nextFile, limit, written, index)
    requires s.files == FilesOf(disk, written) && s.nextFile == nextFile
    ensures ok <==> OpensAt(Payloads(s.wal), cut)
    ensures ok ==> db != null && fresh(db) && db.wal.contents == log && db.sst.runs == written && db.mem.Valid()
    ensures ok ==> Holding(db, WholeRecords(s.wal, cut))
    ensures ok && log == LogBytes(Payloads(WholeRecords(s.wal, cut))) ==> Restarted(db, s.(wal := WholeRecords(s.wal, cut)))
  {
    hide LogBytes, Recover, ListsAligned, Replay, StrictlySorted, Size, Payloads, WholeFrames, OpensAt;
    CutLogRecoversExactly(s.wal, cut);
    var wal := new Wal(log);
    var mem, maxTxnId;
    ok, mem, maxTxnId := BuildMemtableFromWal(wal);
    if !ok { return false, null; }
    var sst := new SsTable.Reopen(disk, nextFile, limit, written, index);
    db := new Database(wal, mem, sst, maxTxnId + 1, WholeRecords(s.wal, cut));
  }
}
