/** The engine refines a database with no layers, no log and no versions: a committed map,
    and transactions that each read the map as it was when they began, under their own writes. */
module Snapshots {
  import opened Bytes
  import opened Mvcc
  import opened Layers
  import opened Compaction
  import opened Engine
  import opened EngineLemmas
  import opened EngineInvariant

  datatype AbsTxn = AbsTxn(snapshot: Store, writes: Store)

  /** committed: what a new transaction reads; durable: what a restart would bring back. */
  datatype Abs = Abs(committed: Store, durable: Store, txns: map<TxnId, AbsTxn>)

  const AbsInit: Abs := Abs(map[], map[], map[])

  ghost predicate Conflict(a: Abs, t: TxnId, k: Bytes) {
    exists u :: u in a.txns && u != t && k in a.txns[u].writes
  }

  ghost function AbsNext(a: Abs, step: Step): Abs {
    match step
    case Begin(t) => a.(txns := a.txns[t := AbsTxn(a.committed, map[])])
    case Put(t, k, v) =>
      if t !in a.txns || Conflict(a, t, k) then a
      else a.(txns := a.txns[t := a.txns[t].(writes := a.txns[t].writes[k := v])])
    case Rollback(t) => a.(txns := a.txns - {t})
    case Log(t, _) => if t in a.txns then a.(durable := a.durable + a.txns[t].writes) else a
    case Finish(t) =>
      if t in a.txns then a.(committed := a.committed + a.txns[t].writes, txns := a.txns - {t}) else a
    case Restart => Abs(a.durable, a.durable, map[])
    case _ => a
  }

  function AbsGet(a: Abs, t: TxnId, k: Bytes): Bytes
    requires t in a.txns
  {
    if k in a.txns[t].writes then a.txns[t].writes[k]
    else if k in a.txns[t].snapshot then a.txns[t].snapshot[k]
    else []
  }

  function Lookup(m: Store, k: Bytes): Option<Bytes> {
    if k in m then Some(m[k]) else None
  }

  /* ---------- The simulation relation ---------- */

  ghost predicate ReadsAs(vs: set<Version>, r: Reader, m: Store, except: set<Bytes>) {
    forall k :: k !in except ==> Reads(vs, k, r, Lookup(m, k))
  }

  function SeesAll(s: Sys): Reader {
    Reader(s.next, {})
  }

  ghost function OnDisk(s: Sys): set<Version> {
    FileSet(s.files) + LogSet(s.wal)
  }

  ghost predicate TxnsAgree(s: Sys, a: Abs) {
    && a.txns.Keys == s.txns.Keys
    && forall t :: t in s.txns ==> a.txns[t].writes == s.txns[t].writes
  }

  ghost predicate ReadersAgree(s: Sys, a: Abs)
    requires TxnsAgree(s, a)
  {
    forall t :: t in s.txns ==> ReadsAs(Stored(s), ReaderOf(s, t), a.txns[t].snapshot, s.txns[t].writes.Keys)
  }

  ghost predicate DurableAgree(s: Sys, a: Abs) {
    && ReadsAs(OnDisk(s), SeesAll(s), a.durable, {})
    && (s.stale ==> ReadsAs(FileSet(s.files), SeesAll(s), a.durable, {}))
  }

  ghost predicate PendingAgree(s: Sys, a: Abs) {
    match s.stage
    case Idle => a.durable == a.committed
    case Logged(t) => t in a.txns && a.durable == a.committed + a.txns[t].writes
    case Applied(t) => t in a.txns && a.durable == a.committed + a.txns[t].writes
  }

  ghost predicate Agree(s: Sys, a: Abs) {
    && TxnsAgree(s, a)
    && ReadersAgree(s, a)
    && ReadsAs(Stored(s), Fresh(s), a.committed, {})
    && DurableAgree(s, a)
    && PendingAgree(s, a)
  }

  ghost predicate Sim(s: Sys, a: Abs) {
    Inv(s) && Agree(s, a)
  }

  /* ---------- Moving a read from one set of versions to another ---------- */

  lemma ReadsTransfer(vs: set<Version>, vs': set<Version>, k: Bytes, r: Reader, r': Reader, o: Option<Bytes>)
    requires Reads(vs, k, r, o)
    requires forall v :: (v in vs && Candidate(k, r, v)) <==> (v in vs' && Candidate(k, r', v))
    ensures Reads(vs', k, r', o)
  {
    if o.Some? {
      var v :| Picks(vs, k, r, v) && v.value == o.value;
      assert Picks(vs', k, r', v);
    }
  }

  /** Same versions, readers that agree on every id in them. */
  lemma SameSight(vs: set<Version>, r: Reader, r': Reader, m: Store, except: set<Bytes>)
    requires ReadsAs(vs, r, m, except)
    requires forall v :: v in vs ==> (Visible(r, v.txn) <==> Visible(r', v.txn))
    ensures ReadsAs(vs, r', m, except)
  {
    forall k | k !in except ensures Reads(vs, k, r', Lookup(m, k)) {
      ReadsTransfer(vs, vs, k, r, r', Lookup(m, k));
    }
  }

  /** New versions that the reader cannot see. */
  lemma InvisibleGrowth(vs: set<Version>, add: set<Version>, r: Reader, m: Store, except: set<Bytes>)
    requires ReadsAs(vs, r, m, except)
    requires forall v :: v in add ==> !Visible(r, v.txn) || v.key in except
    ensures ReadsAs(vs + add, r, m, except)
  {
    forall k | k !in except ensures Reads(vs + add, k, r, Lookup(m, k)) {
      ReadsTransfer(vs, vs + add, k, r, r, Lookup(m, k));
    }
  }

  /** Versions of one transaction, visible and newest for their keys, overlay the map. */
  lemma VisibleGrowth(vs: set<Version>, r: Reader, r': Reader, m: Store, writes: Store, t: TxnId)
    requires ReadsAs(vs, r, m, {})
    requires forall v :: v in vs && v.key !in writes ==> (Visible(r, v.txn) <==> Visible(r', v.txn))
    requires Visible(r', t)
    requires forall v :: v in vs && v.key in writes ==> v.txn <= t
    ensures ReadsAs(vs + VersionsOf(writes, t), r', m + writes, {})
  {
    var vs' := vs + VersionsOf(writes, t);
    forall k ensures Reads(vs', k, r', Lookup(m + writes, k)) {
      if k in writes {
        var v := Version(k, writes[k], t);
        assert v in vs';
        assert Picks(vs', k, r', v);
      } else {
        ReadsTransfer(vs, vs', k, r, r', Lookup(m, k));
      }
    }
  }

  /** Replacing a part of the versions by one from which r reads the same. */
  lemma ReadsThroughCompaction(old_: set<Version>, new_: set<Version>, rest: set<Version>, r: Reader, m: Store, except: set<Bytes>)
    requires SamePicks(old_, new_, r) && new_ <= old_
    requires ReadsAs(old_ + rest, r, m, except)
    ensures ReadsAs(new_ + rest, r, m, except)
  {
    forall k | k !in except ensures Reads(new_ + rest, k, r, Lookup(m, k)) {
      assert Reads(old_ + rest, k, r, Lookup(m, k));
      if k in m {
        var v :| Picks(old_ + rest, k, r, v) && v.value == m[k];
        if v in old_ {
          assert Picks(old_, k, r, v);
          assert Picks(new_, k, r, v);
        }
        assert Picks(new_ + rest, k, r, v);
      }
    }
  }

  /* ---------- The simulation, step by step ---------- */

  ghost predicate ReaderAgrees(s: Sys, a: Abs, t: TxnId)
    requires TxnsAgree(s, a) && t in s.txns
  {
    ReadsAs(Stored(s), ReaderOf(s, t), a.txns[t].snapshot, s.txns[t].writes.Keys)
  }

  /** A reader whose store, snapshot and abstract snapshot are untouched still agrees. */
  lemma ReaderKept(s: Sys, s': Sys, a: Abs, a': Abs, t: TxnId)
    requires TxnsAgree(s, a) && TxnsAgree(s', a') && t in s.txns && t in s'.txns
    requires Stored(s') == Stored(s) && s'.txns[t].snapshot == s.txns[t].snapshot
    requires s.txns[t].writes.Keys <= s'.txns[t].writes.Keys
    requires a'.txns[t].snapshot == a.txns[t].snapshot
    requires ReaderAgrees(s, a, t)
    ensures ReaderAgrees(s', a', t)
  {
    assert ReaderOf(s', t) == ReaderOf(s, t);
  }

  lemma BeginAgree(s: Sys, a: Abs, t: TxnId)
    requires IdsOk(s) && Agree(s, a) && t == s.next
    ensures Agree(Next(s, Begin(t)), AbsNext(a, Begin(t)))
  {
    var s', a' := Next(s, Begin(t)), AbsNext(a, Begin(t));
    assert Stored(s') == Stored(s);
    forall u | u in s'.txns ensures ReaderAgrees(s', a', u) {
      if u == t { assert ReaderOf(s', u) == Fresh(s); } else { ReaderKept(s, s', a, a', u); }
    }
    assert forall v :: v in Stored(s) ==> v in Everything(s);
    SameSight(Stored(s), Fresh(s), Fresh(s'), a.committed, {});
    SeesAllGrows(s, s', a);
    assert PendingAgree(s', a');
  }

  lemma SeesAllGrows(s: Sys, s': Sys, a: Abs)
    requires IdsOk(s) && s'.files == s.files && s'.wal == s.wal && s'.stale == s.stale && s.next <= s'.next
    requires DurableAgree(s, a)
    ensures DurableAgree(s', a)
  {
    SameSight(OnDisk(s), SeesAll(s), SeesAll(s'), a.durable, {});
    if s.stale { SameSight(FileSet(s.files), SeesAll(s), SeesAll(s'), a.durable, {}); }
  }

  lemma LockedIffConflict(s: Sys, a: Abs, t: TxnId, k: Bytes)
    requires IdsOk(s) && LocksOk(s) && TxnsAgree(s, a) && t in s.txns
    ensures LockedByOther(s, t, k) <==> Conflict(a, t, k)
  {
    if LockedByOther(s, t, k) {
      var u := s.locks[k].writer;
      assert HoldsLocks(s.locks, u, s.txns[u]);
      assert u in a.txns && k in a.txns[u].writes;
    }
    if u :| u in a.txns && u != t && k in a.txns[u].writes {
      assert HoldsLocks(s.locks, u, s.txns[u]);
    }
  }

  lemma PutAgree(s: Sys, a: Abs, t: TxnId, k: Bytes, v: Bytes)
    requires Agree(s, a) && Enabled(s, Put(t, k, v))
    requires LockedByOther(s, t, k) <==> Conflict(a, t, k)
    ensures Agree(Next(s, Put(t, k, v)), AbsNext(a, Put(t, k, v)))
  {
    if !LockedByOther(s, t, k) {
      BufferAgree(s, Next(s, Put(t, k, v)), a, AbsNext(a, Put(t, k, v)), t);
    }
  }

  /** Only t's buffer has grown, the same way on both sides. */
  lemma BufferAgree(s: Sys, s': Sys, a: Abs, a': Abs, t: TxnId)
    requires Agree(s, a) && t in s.txns && !Committing(s, t)
    requires s' == s.(locks := s'.locks, txns := s'.txns) && a' == a.(txns := a'.txns)
    requires TxnsAgree(s', a') && s'.txns.Keys == s.txns.Keys
    requires forall u :: u in s.txns ==> s'.txns[u].snapshot == s.txns[u].snapshot && a'.txns[u].snapshot == a.txns[u].snapshot
    requires forall u :: u in s.txns ==> s.txns[u].writes.Keys <= s'.txns[u].writes.Keys
    requires forall u :: u in s.txns && u != t ==> s'.txns[u].writes == s.txns[u].writes
    ensures Agree(s', a')
  {
    forall u | u in s'.txns ensures ReaderAgrees(s', a', u) {
      ReaderKept(s, s', a, a', u);
    }
    assert Stored(s') == Stored(s) && Fresh(s') == Fresh(s) && OnDisk(s') == OnDisk(s);
    assert PendingAgree(s', a');
  }

  lemma RollbackAgree(s: Sys, a: Abs, t: TxnId)
    requires IdsOk(s) && StageOk(s) && Agree(s, a) && Enabled(s, Rollback(t))
    ensures Agree(Next(s, Rollback(t)), AbsNext(a, Rollback(t)))
  {
    var s', a' := Next(s, Rollback(t)), AbsNext(a, Rollback(t));
    assert Stored(s') == Stored(s) && OnDisk(s') == OnDisk(s);
    assert TxnsAgree(s', a');
    forall u | u in s'.txns ensures ReaderAgrees(s', a', u) {
      ReaderKept(s, s', a, a', u);
    }
    SameSight(Stored(s), Fresh(s), Fresh(s'), a.committed, {});
    assert PendingAgree(s', a');
  }

  /** Nothing a reader depends on has changed. */
  lemma SameReaders(s: Sys, s': Sys, a: Abs, a': Abs)
    requires TxnsAgree(s, a) && ReadersAgree(s, a) && ReadsAs(Stored(s), Fresh(s), a.committed, {})
    requires s'.txns == s.txns && s'.active == s.active && s'.next == s.next && Stored(s') == Stored(s)
    requires a'.txns == a.txns && a'.committed == a.committed
    ensures TxnsAgree(s', a') && ReadersAgree(s', a') && ReadsAs(Stored(s'), Fresh(s'), a'.committed, {})
  {
    forall u | u in s'.txns ensures ReaderAgrees(s', a', u) {
      ReaderKept(s, s', a, a', u);
    }
  }

  lemma LogAgree(s: Sys, a: Abs, t: TxnId, order: seq<(Bytes, Bytes)>)
    requires Agree(s, a) && Enabled(s, Log(t, order)) && IdsOk(s)
    requires var s' := Next(s, Log(t, order));
             && LogSet(s'.wal) == LogSet(s.wal) + VersionsOf(s.txns[t].writes, t)
             && forall v :: v in Everything(s') && v.key in s.txns[t].writes ==> v.txn <= t
    ensures Agree(Next(s, Log(t, order)), AbsNext(a, Log(t, order)))
  {
    var s', a' := Next(s, Log(t, order)), AbsNext(a, Log(t, order));
    SameReaders(s, s', a, a');
    var writes := s.txns[t].writes;
    assert OnDisk(s') == OnDisk(s) + VersionsOf(writes, t);
    assert forall v :: v in OnDisk(s) ==> v in Everything(s');
    VisibleGrowth(OnDisk(s), SeesAll(s), SeesAll(s'), a.durable, writes, t);
    assert PendingAgree(s', a');
  }

  /** A running transaction's versions are invisible to every other reader, live or about to begin. */
  lemma RunningIsInvisible(s: Sys, t: TxnId)
    requires IdsOk(s) && SnapshotsOk(s) && t in s.txns
    ensures forall u :: u in s.txns && u != t ==> !Visible(ReaderOf(s, u), t)
    ensures !Visible(Fresh(s), t)
  {
  }

  lemma ApplyAgree(s: Sys, s': Sys, a: Abs, t: TxnId)
    requires Agree(s, a) && IdsOk(s) && SnapshotsOk(s) && s.stage == Logged(t) && t in s.txns
    requires s'.txns == s.txns && s'.active == s.active && s'.next == s.next && s'.files == s.files && s'.wal == s.wal
    requires s'.stale == s.stale && s'.stage == Applied(t)
    requires Stored(s') == Stored(s) + VersionsOf(s.txns[t].writes, t)
    ensures Agree(s', a)
  {
    RunningIsInvisible(s, t);
    var added := VersionsOf(s.txns[t].writes, t);
    forall u | u in s'.txns ensures ReaderAgrees(s', a, u) {
      assert ReaderOf(s', u) == ReaderOf(s, u);
      InvisibleGrowth(Stored(s), added, ReaderOf(s, u), a.txns[u].snapshot, s.txns[u].writes.Keys);
    }
    InvisibleGrowth(Stored(s), added, Fresh(s), a.committed, {});
    assert DurableAgree(s', a);
  }

  lemma FinishAgree(s: Sys, a: Abs, t: TxnId)
    requires IdsOk(s) && StageOk(s) && Agree(s, a) && Enabled(s, Finish(t))
    ensures Agree(Next(s, Finish(t)), AbsNext(a, Finish(t)))
  {
    var s', a' := Next(s, Finish(t)), AbsNext(a, Finish(t));
    assert Stored(s') == Stored(s) && OnDisk(s') == OnDisk(s);
    assert TxnsAgree(s', a');
    forall u | u in s'.txns ensures ReaderAgrees(s', a', u) {
      ReaderKept(s, s', a, a', u);
    }
    var writes := s.txns[t].writes;
    assert Stored(s) + VersionsOf(writes, t) == Stored(s);
    assert forall v :: v in Stored(s) ==> v in Everything(s);
    VisibleGrowth(Stored(s), Fresh(s), Fresh(s'), a.committed, writes, t);
    assert PendingAgree(s', a');
  }

  lemma FlushWriteAgree(s: Sys, a: Abs)
    requires WalOk(s) && Agree(s, a) && Enabled(s, FlushWrite)
    requires Stored(Next(s, FlushWrite)) == Stored(s)
    ensures Agree(Next(s, FlushWrite), a)
  {
    var s' := Next(s, FlushWrite);
    SameReaders(s, s', a, a);
    FileSetSplit(s.files, [File(s.nextFile, s.mem)]);
    FileSetOne(File(s.nextFile, s.mem));
    assert FileSet(s'.files) == OnDisk(s) == OnDisk(s');
  }

  lemma FlushClearAgree(s: Sys, a: Abs)
    requires Agree(s, a) && Enabled(s, FlushClear)
    ensures Agree(Next(s, FlushClear), a)
  {
    var s' := Next(s, FlushClear);
    SameReaders(s, s', a, a);
    assert OnDisk(s') == FileSet(s.files);
  }

  lemma CompactReaders(s: Sys, s': Sys, a: Abs, vs: set<Version>, m: nat, top: set<Version>)
    requires TxnsAgree(s, a) && ReadersAgree(s, a) && ReadsAs(Stored(s), Fresh(s), a.committed, {})
    requires s'.txns == s.txns && s'.active == s.active && s'.next == s.next
    requires Stored(s) == vs + top && Stored(s') == Compact(vs, m) + top
    requires SafeFor(s, vs, m)
    ensures TxnsAgree(s', a) && ReadersAgree(s', a) && ReadsAs(Stored(s'), Fresh(s'), a.committed, {})
  {
    forall u | u in s'.txns ensures ReaderAgrees(s', a, u) {
      var r := ReaderOf(s, u);
      assert ReaderOf(s', u) == r;
      CompactionPreservesReadsExactly(vs, m, r);
      ReadsThroughCompaction(vs, Compact(vs, m), top, r, a.txns[u].snapshot, s.txns[u].writes.Keys);
    }
    CompactionPreservesReadsExactly(vs, m, Fresh(s));
    ReadsThroughCompaction(vs, Compact(vs, m), top, Fresh(s), a.committed, {});
  }

  /** The newest version of every key survives any horizon, so the durable state is untouched. */
  lemma CompactDurable(vs: set<Version>, m: nat, rest: set<Version>, r: Reader, durable: Store)
    requires forall v :: v in vs ==> Visible(r, v.txn)
    requires ReadsAs(vs + rest, r, durable, {})
    ensures ReadsAs(Compact(vs, m) + rest, r, durable, {})
  {
    SafeHorizon(vs, m, r);
    ReadsThroughCompaction(vs, Compact(vs, m), rest, r, durable, {});
  }

  /** How the swap splits the store: inputs below, everything newer on top, untouched. */
  lemma SwapShape(s: Sys, s': Sys, out: seq<Version>)
    requires FilesOk(s) && Enabled(s, CompactFinish(out)) && s' == Next(s, CompactFinish(out))
    ensures var vs, rest := FileSet(s.job.inputs), FileSet(s.files[|s.job.inputs|..]);
            && FileSet(s.files) == vs + rest && FileSet(s'.files) == Compact(vs, s.job.horizon) + rest
            && Stored(s) == vs + (rest + Elems(s.mem))
            && Stored(s') == Compact(vs, s.job.horizon) + (rest + Elems(s.mem))
    ensures s' == s.(files := s'.files, nextFile := s'.nextFile, job := NoJob)
  {
    hide FilesOk, FileSet, Compact;
    SwapStored(s, out);
    InputsStored(s);
  }

  lemma CompactFinishAgree(s: Sys, a: Abs, out: seq<Version>)
    requires IdsOk(s) && FilesOk(s) && JobOk(s) && Agree(s, a) && Enabled(s, CompactFinish(out))
    ensures Agree(Next(s, CompactFinish(out)), a)
  {
    var s' := Next(s, CompactFinish(out));
    SwapShape(s, s', out);
    CompactAgree(s, s', a, FileSet(s.job.inputs), s.job.horizon, FileSet(s.files[|s.job.inputs|..]));
  }

  lemma CompactAgree(s: Sys, s': Sys, a: Abs, vs: set<Version>, m: nat, rest: set<Version>)
    requires IdsOk(s) && Agree(s, a) && SafeFor(s, vs, m)
    requires s' == s.(files := s'.files, nextFile := s'.nextFile, job := NoJob)
    requires FileSet(s.files) == vs + rest && FileSet(s'.files) == Compact(vs, m) + rest
    requires Stored(s) == vs + (rest + Elems(s.mem)) && Stored(s') == Compact(vs, m) + (rest + Elems(s.mem))
    ensures Agree(s', a)
  {
    CompactReaders(s, s', a, vs, m, rest + Elems(s.mem));
    CompactOnDisk(s, s', a, vs, m, rest);
    assert PendingAgree(s', a);
  }

  lemma CompactOnDisk(s: Sys, s': Sys, a: Abs, vs: set<Version>, m: nat, rest: set<Version>)
    requires IdsOk(s) && DurableAgree(s, a)
    requires s'.next == s.next && s'.wal == s.wal && s'.stale == s.stale
    requires FileSet(s.files) == vs + rest && FileSet(s'.files) == Compact(vs, m) + rest
    ensures DurableAgree(s', a)
  {
    forall v | v in vs ensures Visible(SeesAll(s), v.txn) { assert v in Everything(s); }
    assert OnDisk(s) == vs + (rest + LogSet(s.wal)) && OnDisk(s') == Compact(vs, m) + (rest + LogSet(s.wal));
    CompactDurable(vs, m, rest + LogSet(s.wal), SeesAll(s), a.durable);
    if s.stale { CompactDurable(vs, m, rest, SeesAll(s), a.durable); }
  }

  lemma CompactStartAgree(s: Sys, a: Abs, m: nat)
    requires Agree(s, a) && Enabled(s, CompactStart(m))
    ensures Agree(Next(s, CompactStart(m)), a)
  {
    SameReaders(s, Next(s, CompactStart(m)), a, a);
  }

  lemma RestartAgree(s: Sys, a: Abs)
    requires IdsOk(s) && IdsRecoverable(s) && Agree(s, a)
    requires Stored(Next(s, Restart)) == OnDisk(s)
    ensures Agree(Next(s, Restart), AbsNext(a, Restart))
  {
    var s' := Next(s, Restart);
    MaxIdBounds(s.wal);
    assert forall v :: v in OnDisk(s) ==> v in Everything(s) && v.txn <= MaxId(s.wal);
    SameSight(OnDisk(s), SeesAll(s), Fresh(s'), a.durable, {});
    SameSight(OnDisk(s), SeesAll(s), SeesAll(s'), a.durable, {});
  }

  lemma CommitAgree(s: Sys, a: Abs, step: Step)
    requires Inv(s) && Agree(s, a) && Allowed(s, step) && (step.Log? || step.Apply?)
    ensures Agree(Next(s, step), AbsNext(a, step))
  {
    match step
    case Log(t, order) =>
      LogGrows(s, t, order);
      LogLayers(s, Next(s, step), t);
      LogAgree(s, a, t, order);
    case Apply(t) =>
      ApplyKeeps(s, t);
      ApplyAgree(s, Next(s, step), a, t);
  }

  lemma AgreePreserved(s: Sys, a: Abs, step: Step)
    requires Inv(s) && Agree(s, a) && Allowed(s, step)
    ensures Agree(Next(s, step), AbsNext(a, step))
  {
    hide IdsOk, SnapshotsOk, LayersOk, StageOk, WalOk, FilesOk, JobOk, LocksOk, ReadersAgree, ReadsAs, DurableAgree, PendingAgree;
    match step
    case Begin(t) => BeginAgree(s, a, t);
    case Put(t, k, v) => LockedIffConflict(s, a, t, k); PutAgree(s, a, t, k, v);
    case Rollback(t) => RollbackAgree(s, a, t);
    case Log(t, order) => CommitAgree(s, a, step);
    case Apply(t) => CommitAgree(s, a, step);
    case Finish(t) => FinishAgree(s, a, t);
    case FlushWrite => FlushWriteKeeps(s); FlushWriteAgree(s, a);
    case FlushClear => FlushClearAgree(s, a);
    case CompactStart(m) => CompactStartAgree(s, a, m);
    case CompactFinish(out) => CompactFinishAgree(s, a, out);
    case Restart => RestartKeeps(s); RestartAgree(s, a);
  }

  /** Forward simulation: whatever allowed step the engine takes, the simple database takes it too. */
  lemma SimPreserved(s: Sys, a: Abs, step: Step)
    requires Sim(s, a) && Allowed(s, step)
    ensures Sim(Next(s, step), AbsNext(a, step))
  {
    InvPreserved(s, step);
    AgreePreserved(s, a, step);
  }

  /* ---------- Whole runs ---------- */

  ghost function AbsAfter(a: Abs, run: seq<Step>): Abs
    decreases |run|
  {
    if run == [] then a else AbsAfter(AbsNext(a, run[0]), run[1..])
  }

  lemma {:induction false} RunRefines(s: Sys, a: Abs, run: seq<Step>)
    requires Sim(s, a) && AllowedRun(s, run)
    ensures Sim(After(s, run), AbsAfter(a, run))
    decreases |run|
  {
    if run == [] {
    } else {
      SimPreserved(s, a, run[0]);
      RunRefines(Next(s, run[0]), AbsNext(a, run[0]), run[1..]);
    }
  }

  lemma InitSim()
    ensures Sim(Init, AbsInit)
  {
    InitInv();
    assert Stored(Init) == {} && OnDisk(Init) == {};
  }

  /** What the layered, early-stopping lookup returns is what the simple database returns. */
  lemma GetRefines(s: Sys, a: Abs, t: TxnId, k: Bytes)
    requires Sim(s, a) && t in s.txns && NonEmptyFor(Stored(s), k)
    ensures TxnGet(s, t, k) == AbsGet(a, t, k)
  {
    if k !in s.txns[t].writes {
      StoredIsUnion(s.mem, s.files);
      var ls := Runs(s.files) + [s.mem];
      LayersReadable(s);
      assert ReaderAgrees(s, a, t);
      StoreGetCorrect(s.mem, Runs(s.files), k, ReaderOf(s, t), Lookup(a.txns[t].snapshot, k));
    }
  }

  lemma LayersReadable(s: Sys)
    requires LayersOk(s)
    ensures AllSorted(Runs(s.files) + [s.mem])
    ensures Ordered(Sets(Runs(s.files) + [s.mem]))
    ensures Functional(Stored(s))
  {
    StoredIsUnion(s.mem, s.files);
    StrictIsSorted(s.mem);
  }
}
