/** What every allowed step of the engine keeps. */
module EngineInvariant {
  import opened Bytes
  import opened Mvcc
  import opened Memtables
  import opened Layers
  import opened Compaction
  import opened Engine
  import opened EngineLemmas

  ghost function Everything(s: Sys): set<Version> {
    Stored(s) + LogSet(s.wal)
  }

  /** Ids are handed out once, and versions carry ids already handed out. */
  ghost predicate IdsOk(s: Sys) {
    && s.next >= 1
    && (forall v :: v in Everything(s) ==> 1 <= v.txn < s.next)
    && (forall t :: t in s.txns ==> 1 <= t < s.next)
    && s.active == s.txns.Keys
  }

  /** A reader knows every transaction that was running when it began. */
  ghost predicate SnapshotsOk(s: Sys) {
    forall r, t :: r in s.txns && t in s.txns && t <= r ==> t in s.txns[r].snapshot
  }

  ghost predicate LayersOk(s: Sys) {
    && StrictlySorted(s.mem)
    && (forall i :: 0 <= i < |s.files| ==> Sorted(s.files[i].entries))
    && Functional(Everything(s))
    && Ordered(FileLayers(s.files) + [Elems(s.mem)])
    && Ordered(FileLayers(s.files) + [LogSet(s.wal)])
  }

  /** Only the commit in progress has stored versions while active, and nothing is newer than its writes. */
  ghost predicate StageOk(s: Sys) {
    && (forall v :: v in Stored(s) && v.txn in s.txns ==> s.stage == Applied(v.txn) && v.key in s.txns[v.txn].writes)
    && (!s.stage.Idle? ==>
          && s.stage.txn in s.txns
          && (forall v :: v in Everything(s) && v.key in s.txns[s.stage.txn].writes ==> v.txn <= s.stage.txn))
    && (s.stage.Applied? ==> VersionsOf(s.txns[s.stage.txn].writes, s.stage.txn) <= Stored(s))
  }

  /** The memtable is the replay of the log, except for the two windows in which one of them
      is ahead: a record not applied yet, and a flush whose log is not cleared yet. */
  ghost predicate WalOk(s: Sys) {
    && StrictlySorted(Replay(s.wal)) && Elems(Replay(s.wal)) == LogSet(s.wal)
    && (s.stale ==> s.mem == [] && !s.stage.Logged?)
    && (!s.stale && !s.stage.Logged? ==> s.mem == Replay(s.wal))
    && (s.stage.Logged? ==>
          && s.stage.txn in s.txns
          && s.wal != []
          && s.wal[|s.wal| - 1].txn == s.stage.txn
          && Listing(s.wal[|s.wal| - 1].writes, s.txns[s.stage.txn].writes)
          && s.mem == Replay(s.wal[..|s.wal| - 1]))
  }

  /** Files that a running compaction reads stay the oldest files, under names of their own. */
  ghost predicate FilesOk(s: Sys) {
    && DistinctNames(s.files)
    && (forall i :: 0 <= i < |s.files| ==> s.files[i].name < s.nextFile)
    && (s.job.Job? ==> s.job.inputs <= s.files)
  }

  ghost predicate JobOk(s: Sys) {
    s.job.Job? ==> SafeFor(s, FileSet(s.job.inputs), s.job.horizon)
  }

  /** The lock protocol: a key's writer is a live transaction that lists the key exactly once,
      and a transaction's buffered keys are exactly the keys it has locked. */
  ghost predicate LocksOk(s: Sys) {
    && (forall k :: k in s.locks ==>
          && s.locks[k].readers == []
          && (s.locks[k].writer != 0 ==> s.locks[k].writer in s.txns && k in s.txns[s.locks[k].writer].locked))
    && (forall t :: t in s.txns ==> HoldsLocks(s.locks, t, s.txns[t]))
  }

  ghost predicate HoldsLocks(locks: map<Bytes, LocksAcquired>, t: TxnId, txn: Txn) {
    && (forall i, j :: 0 <= i < j < |txn.locked| ==> txn.locked[i] != txn.locked[j])
    && (forall k :: k in txn.locked ==> k in locks && locks[k].writer == t)
    && (forall k :: k in txn.writes <==> k in txn.locked)
  }

  ghost predicate Inv(s: Sys) {
    IdsOk(s) && SnapshotsOk(s) && LayersOk(s) && StageOk(s) && WalOk(s) && FilesOk(s) && JobOk(s) && LocksOk(s)
  }

  lemma InitInv()
    ensures Inv(Init)
  {
  }

  /* ---------- Locks ---------- */

  lemma EndLocks(s: Sys, t: TxnId)
    requires LocksOk(s) && t in s.txns && t != 0
    ensures LocksOk(End(s, t))
    ensures !Inconsistent(s.locks, t, s.txns[t].locked)
    ensures forall k :: k in End(s, t).locks ==> End(s, t).locks[k].writer != t
  {
    var s' := End(s, t);
    assert HoldsLocks(s.locks, t, s.txns[t]);
    ReleaseEffect(s.locks, t, s.txns[t].locked);
    forall u | u in s'.txns ensures HoldsLocks(s'.locks, u, s'.txns[u]) {
      assert HoldsLocks(s.locks, u, s.txns[u]);
    }
  }

  lemma PutLocks(s: Sys, t: TxnId, k: Bytes, v: Bytes)
    requires LocksOk(s) && Enabled(s, Put(t, k, v)) && 0 !in s.txns
    ensures LocksOk(Next(s, Put(t, k, v)))
  {
    var s' := Next(s, Put(t, k, v));
    assert HoldsLocks(s.locks, t, s.txns[t]);
    if !LockedByOther(s, t, k) {
      var held := k in s.locks && s.locks[k].writer == t;
      assert held <==> k in s.txns[t].locked;
      forall u | u in s'.txns ensures HoldsLocks(s'.locks, u, s'.txns[u]) {
        assert HoldsLocks(s.locks, u, s.txns[u]);
        if u == t && !held {
          assert s'.txns[t].locked == s.txns[t].locked + [k];
        }
      }
    }
  }

  /* ---------- A compaction in progress stays safe ---------- */

  /** Readers that agree on the ids in vs lose the same things. */
  lemma SameSightSameLoss(vs: set<Version>, m: nat, r: Reader, r': Reader)
    requires forall v :: v in vs ==> (Visible(r, v.txn) <==> Visible(r', v.txn))
    requires !Loses(vs, m, r)
    ensures !Loses(vs, m, r')
  {
  }

  lemma InputsStored(s: Sys)
    requires FilesOk(s) && s.job.Job?
    ensures FileSet(s.job.inputs) <= Stored(s)
    ensures FileSet(s.files) == FileSet(s.job.inputs) + FileSet(s.files[|s.job.inputs|..])
    ensures FileLayers(s.files) == FileLayers(s.job.inputs) + FileLayers(s.files[|s.job.inputs|..])
  {
  }

  lemma BeginJob(s: Sys, t: TxnId)
    requires Inv(s) && t == s.next
    ensures JobOk(Next(s, Begin(t)))
  {
    var s' := Next(s, Begin(t));
    if s.job.Job? {
      InputsStored(s);
      var vs := FileSet(s.job.inputs);
      forall u | u in s'.txns ensures !Loses(vs, s.job.horizon, ReaderOf(s', u)) {
        if u == t { assert ReaderOf(s', t) == Fresh(s); } else { assert ReaderOf(s', u) == ReaderOf(s, u); }
      }
      SameSightSameLoss(vs, s.job.horizon, Fresh(s), Fresh(s'));
    }
  }

  /** A transaction that ends can only make more input versions visible to later readers. */
  lemma EndJob(s: Sys, t: TxnId)
    requires Inv(s) && t in s.txns
    ensures JobOk(End(s, t))
  {
    hide LayersOk, WalOk, LocksOk, Loses, IdsOk, SnapshotsOk, StageOk, FilesOk, Stored;
    var s' := End(s, t);
    if s.job.Job? {
      InputsStored(s);
      var vs := FileSet(s.job.inputs);
      forall u | u in s'.txns ensures !Loses(vs, s.job.horizon, ReaderOf(s', u)) {
        assert ReaderOf(s', u) == ReaderOf(s, u);
      }
      EndSight(s, t);
      if s.stage == Applied(t) {
        SafeHorizon(vs, s.job.horizon, Fresh(s'));
      } else {
        SameSightSameLoss(vs, s.job.horizon, Fresh(s), Fresh(s'));
      }
    }
  }

  /** What a reader beginning after t has ended sees of the stored versions: all of them if t was
      committing, and otherwise what it would have seen before. */
  lemma EndSight(s: Sys, t: TxnId)
    requires IdsOk(s) && SnapshotsOk(s) && StageOk(s) && t in s.txns
    ensures s.stage == Applied(t) ==> forall v :: v in Stored(s) ==> Visible(Fresh(End(s, t)), v.txn)
    ensures s.stage != Applied(t) ==> forall v :: v in Stored(s) ==> (Visible(Fresh(s), v.txn) <==> Visible(Fresh(End(s, t)), v.txn))
  {
  }

  /* ---------- Frames ---------- */

  lemma LayersSame(s: Sys, s': Sys)
    requires LayersOk(s) && s'.mem == s.mem && s'.files == s.files && s'.wal == s.wal
    ensures LayersOk(s') && Stored(s') == Stored(s) && Everything(s') == Everything(s)
  {
  }

  /** Steps that leave readers and the running compaction alone leave its safety alone. */
  lemma JobUnchanged(s: Sys, s': Sys)
    requires JobOk(s) && s'.job == s.job && s'.active == s.active && s'.next == s.next
    requires s'.txns.Keys == s.txns.Keys
    requires forall u :: u in s.txns ==> s'.txns[u].snapshot == s.txns[u].snapshot
    ensures JobOk(s')
  {
  }

  /* ---------- Steps on transactions ---------- */

  lemma BeginFrame(s: Sys, t: TxnId)
    requires IdsOk(s) && SnapshotsOk(s) && FilesOk(s) && t == s.next
    ensures t !in s.txns && t != 0
    ensures var s' := Next(s, Begin(t));
            && s' == s.(next := s'.next, active := s'.active, txns := s'.txns)
            && IdsOk(s') && SnapshotsOk(s') && FilesOk(s')
  {
  }

  lemma BeginKeepsLocks(s: Sys, t: TxnId)
    requires LocksOk(s) && t == s.next && t !in s.txns && t != 0
    ensures LocksOk(Next(s, Begin(t)))
  {
    var s' := Next(s, Begin(t));
    forall u | u in s'.txns ensures HoldsLocks(s'.locks, u, s'.txns[u]) {
      if u != t { assert HoldsLocks(s.locks, u, s.txns[u]); }
    }
  }

  lemma BeginStage(s: Sys, t: TxnId)
    requires IdsOk(s) && StageOk(s) && WalOk(s) && t == s.next
    ensures StageOk(Next(s, Begin(t))) && WalOk(Next(s, Begin(t)))
  {
    hide Stored, Everything, Replay, LogSet, StrictlySorted, Listing;
    StoreSame(s, Next(s, Begin(t)));
  }

  lemma StoreSame(s: Sys, s': Sys)
    requires s'.mem == s.mem && s'.files == s.files && s'.wal == s.wal
    ensures Stored(s') == Stored(s) <= Everything(s) == Everything(s')
  {
  }

  lemma BeginKeeps(s: Sys, t: TxnId)
    requires Inv(s) && t == s.next
    ensures Inv(Next(s, Begin(t)))
  {
    hide IdsOk, SnapshotsOk, LayersOk, StageOk, WalOk, FilesOk, JobOk, LocksOk, Next;
    BeginFrame(s, t);
    BeginKeepsLocks(s, t);
    BeginStage(s, t);
    BeginJob(s, t);
    LayersSame(s, Next(s, Begin(t)));
  }

  lemma PutKeeps(s: Sys, t: TxnId, k: Bytes, v: Bytes)
    requires Inv(s) && Enabled(s, Put(t, k, v))
    ensures Inv(Next(s, Put(t, k, v)))
  {
    hide IdsOk, SnapshotsOk, LayersOk, StageOk, WalOk, FilesOk, JobOk, LocksOk, Enabled, Next, Stored, Everything;
    var s' := Next(s, Put(t, k, v));
    PutFrame(s, t, k, v);
    PutLocks(s, t, k, v);
    LayersSame(s, s');
    JobUnchanged(s, s');
    OthersStage(s, s', t);
    OthersWal(s, s', t);
  }

  /** A Put touches the lock table and its own transaction only. */
  lemma PutFrame(s: Sys, t: TxnId, k: Bytes, v: Bytes)
    requires Enabled(s, Put(t, k, v)) && IdsOk(s) && SnapshotsOk(s) && FilesOk(s)
    ensures !Committing(s, t) && 0 !in s.txns
    ensures var s' := Next(s, Put(t, k, v));
            && s' == s.(locks := s'.locks, txns := s'.txns)
            && s'.txns.Keys == s.txns.Keys
            && (forall u :: u in s.txns ==> s'.txns[u].snapshot == s.txns[u].snapshot)
            && (forall u :: u in s.txns && u != t ==> s'.txns[u] == s.txns[u])
            && IdsOk(s') && SnapshotsOk(s') && FilesOk(s')
  {
  }

  /** A step of a transaction that is not committing leaves the commit in progress alone. */
  lemma OthersStage(s: Sys, s': Sys, t: TxnId)
    requires StageOk(s) && !Committing(s, t)
    requires s'.stage == s.stage && Stored(s') == Stored(s) && Everything(s') == Everything(s)
    requires s'.txns.Keys <= s.txns.Keys
    requires forall u :: u in s.txns && u != t ==> u in s'.txns && s'.txns[u] == s.txns[u]
    ensures StageOk(s')
  {
  }

  lemma OthersWal(s: Sys, s': Sys, t: TxnId)
    requires WalOk(s) && !Committing(s, t)
    requires s'.stage == s.stage && s'.wal == s.wal && s'.mem == s.mem && s'.stale == s.stale
    requires forall u :: u in s.txns && u != t ==> u in s'.txns && s'.txns[u] == s.txns[u]
    ensures WalOk(s')
  {
  }

  lemma RollbackKeeps(s: Sys, t: TxnId)
    requires Inv(s) && Enabled(s, Rollback(t))
    ensures Inv(End(s, t))
  {
    var s' := End(s, t);
    EndLocks(s, t);
    EndJob(s, t);
    LayersSame(s, s');
    assert IdsOk(s') && SnapshotsOk(s') && FilesOk(s');
    OthersStage(s, s', t);
    OthersWal(s, s', t);
  }

  lemma FinishKeeps(s: Sys, t: TxnId)
    requires Inv(s) && Enabled(s, Finish(t))
    ensures Inv(Next(s, Finish(t)))
  {
    hide LayersOk, LocksOk, HoldsLocks, JobOk, Release;
    var s' := End(s, t).(stage := Idle);
    EndLocks(s, t);
    EndJob(s, t);
    LayersSame(s, s');
    LocksSame(End(s, t), s');
    SafetySame(End(s, t), s');
    assert IdsOk(s') && SnapshotsOk(s') && FilesOk(s');
    assert StageOk(s');
    assert WalOk(s');
  }

  lemma SafetySame(s: Sys, s': Sys)
    requires JobOk(s) && s' == s.(stage := s'.stage)
    ensures JobOk(s')
  {
  }

  /* ---------- Commit ---------- */

  /** The log grows by exactly the transaction's versions, into slots that were free. */
  lemma LogGrows(s: Sys, t: TxnId, order: seq<(Bytes, Bytes)>)
    requires IdsOk(s) && LayersOk(s) && StageOk(s) && WalOk(s) && Enabled(s, Log(t, order))
    ensures var s' := Next(s, Log(t, order));
            && WalOk(s')
            && LogSet(s'.wal) == LogSet(s.wal) + VersionsOf(s.txns[t].writes, t)
  {
    var s' := Next(s, Log(t, order));
    assert s'.wal[..|s.wal|] == s.wal;
    ListingSet(order, s.txns[t].writes, t);
    forall v, i | v in s.mem && 0 <= i < |order| ensures !(v.key == order[i].0 && v.txn == t) {
      assert v in Stored(s);
    }
    PutAllElems(s.mem, order, t);
    assert Replay(s'.wal) == PutAll(Replay(s.wal), order, t);
  }

  lemma LogLayers(s: Sys, s': Sys, t: TxnId)
    requires IdsOk(s) && LayersOk(s) && StageOk(s) && WalOk(s) && !s.stale && s.stage == Idle
    requires t in s.txns && OrderedWrites(s, t)
    requires s'.mem == s.mem && s'.files == s.files
    requires LogSet(s'.wal) == LogSet(s.wal) + VersionsOf(s.txns[t].writes, t)
    ensures LayersOk(s')
    ensures forall v :: v in Everything(s') && v.key in s.txns[t].writes ==> v.txn <= t
  {
    var added := VersionsOf(s.txns[t].writes, t);
    assert LogSet(s.wal) == Elems(s.mem);
    assert Everything(s) == Stored(s);
    assert Everything(s') == Stored(s) + added;
    var ls := FileLayers(s.files);
    forall v: Version, i: int, w: Version | v in added && 0 <= i < |ls| && w in ls[i] && w.key == v.key ensures w.txn <= v.txn {
      assert w in s.files[i].entries;
      assert w in Stored(s);
    }
    OrderedGrowTop(ls, LogSet(s.wal), added);
  }

  lemma LogKeeps(s: Sys, t: TxnId, order: seq<(Bytes, Bytes)>)
    requires Inv(s) && Allowed(s, Log(t, order))
    ensures Inv(Next(s, Log(t, order)))
  {
    var s' := Next(s, Log(t, order));
    LogGrows(s, t, order);
    LogLayers(s, s', t);
    JobUnchanged(s, s');
    assert Stored(s') == Stored(s);
    assert IdsOk(s') && SnapshotsOk(s') && FilesOk(s') && LocksOk(s');
  }

  /** Applying the logged record makes the memtable the replay of the log. */
  lemma ApplyStore(s: Sys, t: TxnId)
    requires IdsOk(s) && LayersOk(s) && StageOk(s) && WalOk(s) && Enabled(s, Apply(t))
    ensures var s' := Next(s, Apply(t));
            && s' == s.(mem := Replay(s.wal), stage := Applied(t))
            && Elems(s'.mem) == LogSet(s.wal) && StrictlySorted(s'.mem)
            && Stored(s') == Stored(s) + VersionsOf(s.txns[t].writes, t)
            && VersionsOf(s.txns[t].writes, t) <= LogSet(s.wal) && Elems(s.mem) <= LogSet(s.wal)
  {
    hide Ordered, FileLayers, Functional, PutAll, Listing, StrictlySorted, VersionsOf, RecordSet, Everything;
    var rec := s.wal[|s.wal| - 1];
    ListingSet(rec.writes, s.txns[t].writes, t);
    assert rec == Record(t, rec.writes);
    forall v | v in s.mem ensures v.txn != t {
      assert v in Stored(s);
    }
    ListingKeys(rec.writes, s.txns[t].writes);
    PutAllElems(s.mem, rec.writes, t);
    LogAndReplay(s.wal);
  }

  lemma ListingKeys(order: seq<(Bytes, Bytes)>, writes: map<Bytes, Bytes>)
    requires Listing(order, writes)
    ensures forall i, j :: 0 <= i < j < |order| ==> order[i].0 != order[j].0
  {
  }

  lemma LogAndReplay(wal: seq<Record>)
    requires wal != []
    ensures var init, rec := wal[..|wal| - 1], wal[|wal| - 1];
            Replay(wal) == PutAll(Replay(init), rec.writes, rec.txn) && LogSet(wal) == LogSet(init) + RecordSet(rec)
  {
  }

  lemma ApplyKeeps(s: Sys, t: TxnId)
    requires Inv(s) && Enabled(s, Apply(t))
    ensures Inv(Next(s, Apply(t)))
    ensures Stored(Next(s, Apply(t))) == Stored(s) + VersionsOf(s.txns[t].writes, t)
  {
    hide LocksOk, JobOk, FilesOk, Replay, LogSet, Next, StrictlySorted, Sorted;
    var s' := Next(s, Apply(t));
    ApplyStore(s, t);
    LocksSame(s, s');
    FilesSame(s, s');
    JobUnchanged(s, s');
    assert Everything(s') == Everything(s);
  }

  /* ---------- Flush ---------- */

  lemma FlushLayers(s: Sys)
    requires LayersOk(s) && WalOk(s) && Enabled(s, FlushWrite)
    ensures var s' := Next(s, FlushWrite);
            LayersOk(s') && Stored(s') == Stored(s) && Everything(s') == Everything(s)
  {
    var s' := Next(s, FlushWrite);
    var f := File(s.nextFile, s.mem);
    FileSetSplit(s.files, [f]);
    FileSetOne(f);
    assert Elems(s'.mem) == {};
    assert FileLayers([f]) == [Elems(s.mem)];
    OrderedPush(FileLayers(s.files), Elems(s.mem), {});
    OrderedPush(FileLayers(s.files), Elems(s.mem), Elems(s.mem));
    StrictIsSorted(s.mem);
  }

  lemma FlushWriteKeeps(s: Sys)
    requires Inv(s) && Enabled(s, FlushWrite)
    ensures Inv(Next(s, FlushWrite))
    ensures Stored(Next(s, FlushWrite)) == Stored(s)
  {
    hide LayersOk, LocksOk, JobOk, Stored, Everything, Replay, LogSet, StrictlySorted;
    var s' := Next(s, FlushWrite);
    FlushLayers(s);
    JobUnchanged(s, s');
    LocksSame(s, s');
    assert IdsOk(s') && StageOk(s') && WalOk(s');
  }

  lemma StrictIsSorted(es: seq<Version>)
    requires StrictlySorted(es)
    ensures Sorted(es)
  {
  }

  lemma FlushClearKeeps(s: Sys)
    requires Inv(s) && Enabled(s, FlushClear)
    ensures Inv(Next(s, FlushClear))
  {
    var s' := Next(s, FlushClear);
    assert Elems(s.mem) == {} == LogSet(s'.wal);
    JobUnchanged(s, s');
  }

  /* ---------- Compaction ---------- */

  /** The stored versions after the swap: the kept inputs and everything newer. */
  lemma SwapStored(s: Sys, out: seq<Version>)
    requires FilesOk(s) && Enabled(s, CompactFinish(out))
    ensures var s' := Next(s, CompactFinish(out));
            && s'.files == [File(s.nextFile, out)] + s.files[|s.job.inputs|..]
            && FileSet(s'.files) == Compact(FileSet(s.job.inputs), s.job.horizon) + FileSet(s.files[|s.job.inputs|..])
            && FileSet(s'.files) <= FileSet(s.files)
  {
    var c := File(s.nextFile, out);
    SwapKeepsNewFiles(s.files, s.job.inputs, c);
    InputsStored(s);
    FileSetSplit([c], s.files[|s.job.inputs|..]);
    FileSetOne(c);
    CompactionKeeps(FileSet(s.job.inputs), s.job.horizon);
  }

  lemma OrderOfSwap(inputs: seq<File>, rest: seq<File>, c: File, m: nat, top: set<Version>)
    requires Elems(c.entries) == Compact(FileSet(inputs), m)
    requires Ordered(FileLayers(inputs + rest) + [top])
    ensures Ordered(FileLayers([c] + rest) + [top])
  {
    hide Ordered;
    var low := FileLayers(inputs);
    forall v | v in Elems(c.entries) ensures exists i :: 0 <= i < |low| && v in low[i] {
      assert v in FileSet(inputs);
      var i :| 0 <= i < |inputs| && v in inputs[i].entries;
      assert v in low[i];
    }
    var high := FileLayers(rest) + [top];
    assert FileLayers(inputs + rest) + [top] == low + high;
    OrderedCompact(low, Elems(c.entries), high);
    assert FileLayers([c] + rest) + [top] == [Elems(c.entries)] + high;
  }

  lemma SwapOrder(s: Sys, out: seq<Version>, top: set<Version>)
    requires FilesOk(s) && Enabled(s, CompactFinish(out))
    requires Ordered(FileLayers(s.files) + [top])
    ensures Ordered(FileLayers(Next(s, CompactFinish(out)).files) + [top])
  {
    hide Ordered, Compact, FileSet, FileLayers;
    var inputs, rest := s.job.inputs, s.files[|s.job.inputs|..];
    SwapStored(s, out);
    assert inputs + rest == s.files;
    OrderOfSwap(inputs, rest, File(s.nextFile, out), s.job.horizon, top);
  }

  lemma SwapNames(s: Sys, out: seq<Version>)
    requires FilesOk(s) && Enabled(s, CompactFinish(out))
    ensures FilesOk(Next(s, CompactFinish(out)))
    ensures var s' := Next(s, CompactFinish(out));
            && s'.files != [] && s'.files[0] == File(s.nextFile, out)
            && forall i :: 0 < i < |s'.files| ==> s'.files[i] in s.files
  {
    hide FileSet, Compact;
    var s' := Next(s, CompactFinish(out));
    var n := |s.job.inputs|;
    SwapKeepsNewFiles(s.files, s.job.inputs, File(s.nextFile, out));
    forall i | 0 < i < |s'.files| ensures s'.files[i] == s.files[i - 1 + n] {}
  }

  lemma SwapFiles(s: Sys, out: seq<Version>)
    requires FilesOk(s) && LayersOk(s) && Enabled(s, CompactFinish(out))
    ensures FilesOk(Next(s, CompactFinish(out))) && LayersOk(Next(s, CompactFinish(out)))
  {
    hide Ordered, FileLayers, Compact, StrictlySorted, FilesOk;
    var s' := Next(s, CompactFinish(out));
    SwapNames(s, out);
    SwapStored(s, out);
    SwapOrder(s, out, Elems(s.mem));
    SwapOrder(s, out, LogSet(s.wal));
    assert Everything(s') <= Everything(s);
  }

  lemma CompactFinishKeeps(s: Sys, out: seq<Version>)
    requires Inv(s) && Enabled(s, CompactFinish(out))
    ensures Inv(Next(s, CompactFinish(out)))
  {
    var s' := Next(s, CompactFinish(out));
    SwapStored(s, out);
    SwapFiles(s, out);
    assert Stored(s') <= Stored(s) && Everything(s') <= Everything(s);
    WritesSurvive(s, s');
    assert IdsOk(s') && SnapshotsOk(s') && LocksOk(s') && StageOk(s') && WalOk(s');
  }

  /** The versions of the commit in progress are the newest of their keys, so compaction keeps them. */
  lemma WritesSurvive(s: Sys, s': Sys)
    requires FilesOk(s) && StageOk(s) && s.job.Job?
    requires Elems(s.mem) + Compact(FileSet(s.job.inputs), s.job.horizon) + FileSet(s.files[|s.job.inputs|..]) <= Stored(s')
    ensures s.stage.Applied? ==> VersionsOf(s.txns[s.stage.txn].writes, s.stage.txn) <= Stored(s')
  {
  }

  lemma SafetyCarriesOver(s: Sys, s': Sys, vs: set<Version>, m: nat)
    requires SafeFor(s, vs, m) && s'.txns == s.txns && s'.active == s.active && s'.next == s.next
    ensures SafeFor(s', vs, m)
  {
  }

  lemma CompactStartKeeps(s: Sys, m: nat)
    requires Inv(s) && Enabled(s, CompactStart(m)) && SafeFor(s, FileSet(s.files), m)
    ensures Inv(Next(s, CompactStart(m)))
  {
    hide LayersOk, StageOk, WalOk, LocksOk, Stored, Everything, SafeFor;
    var s' := s.(job := Job(m, s.files));
    SafetyCarriesOver(s, s', FileSet(s.files), m);
    LayersSame(s, s');
    CommitsAfterBegin(s);
    OthersStage(s, s', 0);
    OthersWal(s, s', 0);
    LocksSame(s, s');
  }

  lemma CommitsAfterBegin(s: Sys)
    requires IdsOk(s) && StageOk(s)
    ensures !Committing(s, 0) && 0 !in s.txns
  {
  }

  lemma FilesSame(s: Sys, s': Sys)
    requires FilesOk(s) && s'.files == s.files && s'.nextFile == s.nextFile && s'.job == s.job
    ensures FilesOk(s')
  {
  }

  lemma LocksSame(s: Sys, s': Sys)
    requires LocksOk(s) && s'.locks == s.locks && s'.txns == s.txns
    ensures LocksOk(s')
  {
  }

  /* ---------- Restart ---------- */

  lemma RestartKeeps(s: Sys)
    requires Inv(s) && Allowed(s, Restart)
    ensures Inv(Next(s, Restart))
    ensures Stored(Next(s, Restart)) == FileSet(s.files) + LogSet(s.wal)
  {
    var s' := Next(s, Restart);
    MaxIdBounds(s.wal);
    assert Stored(s') == FileSet(s.files) + LogSet(s.wal);
    assert Everything(s') <= Everything(s);
  }

  /** Every allowed step keeps the invariant. */
  lemma InvPreserved(s: Sys, step: Step)
    requires Inv(s) && Allowed(s, step)
    ensures Inv(Next(s, step))
  {
    match step
    case Begin(t) => BeginKeeps(s, t);
    case Put(t, k, v) => PutKeeps(s, t, k, v);
    case Rollback(t) => RollbackKeeps(s, t);
    case Log(t, order) => LogKeeps(s, t, order);
    case Apply(t) => ApplyKeeps(s, t);
    case Finish(t) => FinishKeeps(s, t);
    case FlushWrite => FlushWriteKeeps(s);
    case FlushClear => FlushClearKeeps(s);
    case CompactStart(m) => CompactStartKeeps(s, m);
    case CompactFinish(out) => CompactFinishKeeps(s, out);
    case Restart => RestartKeeps(s);
  }
}
