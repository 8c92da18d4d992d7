/** Theorems over every run of the engine, and the runs that show why each of the
    conditions they assume cannot be dropped. */
module Isolation {
  import opened Bytes
  import opened Mvcc
  import opened Memtables
  import opened Layers
  import opened Compaction
  import opened Engine
  import opened EngineLemmas
  import opened EngineInvariant
  import opened Snapshots

  /* ---------- Snapshot isolation ---------- */

  /** After any allowed run from the empty database, every live transaction reads its own
      writes over the committed state at its Begin, through flushes, compactions and restarts. */
  lemma SnapshotIsolation(run: seq<Step>, t: TxnId, k: Bytes)
    requires AllowedRun(Init, run) && t in After(Init, run).txns
    requires NonEmptyFor(Stored(After(Init, run)), k)
    ensures t in AbsAfter(AbsInit, run).txns
    ensures TxnGet(After(Init, run), t, k) == AbsGet(AbsAfter(AbsInit, run), t, k)
  {
    InitSim();
    RunRefines(Init, AbsInit, run);
    GetRefines(After(Init, run), AbsAfter(AbsInit, run), t, k);
  }

  /** t is the same transaction from the first to the last state of the run. */
  predicate StaysLive(run: seq<Step>, t: TxnId) {
    forall i :: 0 <= i < |run| ==> run[i] != Restart && run[i] != Rollback(t) && run[i] != Finish(t)
  }

  predicate NeverWrites(run: seq<Step>, t: TxnId, k: Bytes) {
    forall i :: 0 <= i < |run| ==> !(run[i].Put? && run[i].txn == t && run[i].key == k)
  }

  lemma AbsStepKeeps(a: Abs, step: Step, t: TxnId, k: Bytes)
    requires t in a.txns && step != Restart && step != Rollback(t) && step != Finish(t) && step != Begin(t)
    requires !(step.Put? && step.txn == t && step.key == k)
    ensures t in AbsNext(a, step).txns && AbsGet(AbsNext(a, step), t, k) == AbsGet(a, t, k)
  {
  }

  lemma SimTxns(s: Sys, a: Abs)
    requires Sim(s, a)
    ensures a.txns.Keys == s.txns.Keys
  {
  }

  lemma BeginIsFresh(s: Sys, a: Abs, step: Step, t: TxnId)
    requires Sim(s, a) && Enabled(s, step) && t in s.txns
    ensures step != Begin(t)
  {
  }

  lemma {:induction false} SnapshotFixed(s: Sys, a: Abs, run: seq<Step>, t: TxnId, k: Bytes)
    requires Sim(s, a) && AllowedRun(s, run) && t in s.txns
    requires StaysLive(run, t) && NeverWrites(run, t, k)
    ensures t in After(s, run).txns && t in AbsAfter(a, run).txns
    ensures AbsGet(AbsAfter(a, run), t, k) == AbsGet(a, t, k)
    decreases |run|
  {
    hide Sim, Enabled, Guarded, Next, AbsNext, AbsGet;
    SimTxns(s, a);
    if run == [] {
    } else {
      var s', a' := Next(s, run[0]), AbsNext(a, run[0]);
      BeginIsFresh(s, a, run[0], t);
      SimPreserved(s, a, run[0]);
      SimTxns(s', a');
      AbsStepKeeps(a, run[0], t, k);
      assert forall i :: 0 <= i < |run[1..]| ==> run[1..][i] == run[i + 1];
      SnapshotFixed(s', a', run[1..], t, k);
    }
  }

  /** Repeatable read: a transaction that does not write k gets the same answer for k at any
      two points of its life, whatever commits, flushes and compactions come in between. */
  lemma RepeatableRead(before: seq<Step>, during: seq<Step>, t: TxnId, k: Bytes)
    requires AllowedRun(Init, before)
    requires var s := After(Init, before);
             && t in s.txns && NonEmptyFor(Stored(s), k)
             && AllowedRun(s, during) && NonEmptyFor(Stored(After(s, during)), k)
    requires StaysLive(during, t) && NeverWrites(during, t, k)
    ensures var s := After(Init, before);
            t in After(s, during).txns && TxnGet(After(s, during), t, k) == TxnGet(s, t, k)
  {
    var s, a := After(Init, before), AbsAfter(AbsInit, before);
    InitSim();
    RunRefines(Init, AbsInit, before);
    SnapshotFixed(s, a, during, t, k);
    RunRefines(s, a, during);
    GetRefines(s, a, t, k);
    GetRefines(After(s, during), AbsAfter(a, during), t, k);
  }

  /** A write is read back by its own transaction, unless the key is locked; nothing else changes for it. */
  lemma PutThenGet(s: Sys, t: TxnId, k: Bytes, v: Bytes, other: Bytes)
    requires Enabled(s, Step.Put(t, k, v))
    ensures var s' := Next(s, Step.Put(t, k, v));
            && t in s'.txns
            && (!LockedByOther(s, t, k) ==> TxnGet(s', t, k) == v)
            && (other != k || LockedByOther(s, t, k) ==> TxnGet(s', t, other) == TxnGet(s, t, other))
  {
  }

  /** The steps of a commit. */
  ghost predicate Commits(s: Sys, t: TxnId, order: seq<(Bytes, Bytes)>) {
    && Allowed(s, Step.Log(t, order))
    && Allowed(Next(s, Step.Log(t, order)), Step.Apply(t))
    && Allowed(Next(Next(s, Step.Log(t, order)), Step.Apply(t)), Step.Finish(t))
  }

  ghost function Committed(s: Sys, t: TxnId, order: seq<(Bytes, Bytes)>): Sys
    requires Commits(s, t, order)
  {
    Next(Next(Next(s, Step.Log(t, order)), Step.Apply(t)), Step.Finish(t))
  }

  /** At any point of any run: a transaction that begins after a commit reads what was committed, and every
      other key as it would have read it without the commit. */
  lemma CommitIsRead(run: seq<Step>, t: TxnId, order: seq<(Bytes, Bytes)>, u: TxnId, k: Bytes)
    requires AllowedRun(Init, run) && Commits(After(Init, run), t, order)
    requires var s := After(Init, run);
             && Allowed(s, Step.Begin(u)) && Allowed(Committed(s, t, order), Step.Begin(u))
             && NonEmptyFor(Stored(Next(s, Step.Begin(u))), k) && NonEmptyFor(Stored(Next(Committed(s, t, order), Step.Begin(u))), k)
    ensures var s := After(Init, run);
            var before, after := Next(s, Step.Begin(u)), Next(Committed(s, t, order), Step.Begin(u));
            && t in s.txns && u in before.txns && u in after.txns
            && TxnGet(after, u, k) == if k in s.txns[t].writes then s.txns[t].writes[k] else TxnGet(before, u, k)
  {
    hide Enabled, Guarded, Next, TxnGet, NonEmptyFor, Stored, Sim, AbsNext, AbsGet;
    var s, a := After(Init, run), AbsAfter(AbsInit, run);
    InitSim();
    RunRefines(Init, AbsInit, run);
    LogIsLive(s, t, order);
    SimWrites(s, a, t);
    var s1, a1 := Next(s, Step.Log(t, order)), AbsNext(a, Step.Log(t, order));
    var s2, a2 := Next(s1, Step.Apply(t)), AbsNext(a1, Step.Apply(t));
    var s3, a3 := Next(s2, Step.Finish(t)), AbsNext(a2, Step.Finish(t));
    SimPreserved(s, a, Step.Log(t, order));
    SimPreserved(s1, a1, Step.Apply(t));
    SimPreserved(s2, a2, Step.Finish(t));
    SimPreserved(s3, a3, Step.Begin(u));
    SimPreserved(s, a, Step.Begin(u));
    BeginAdds(s3, u);
    BeginAdds(s, u);
    GetRefines(Next(s, Step.Begin(u)), AbsNext(a, Step.Begin(u)), u, k);
    GetRefines(Next(s3, Step.Begin(u)), AbsNext(a3, Step.Begin(u)), u, k);
    AbsCommitIsRead(a, t, order, u, k);
  }

  lemma AbsCommitIsRead(a: Abs, t: TxnId, order: seq<(Bytes, Bytes)>, u: TxnId, k: Bytes)
    requires t in a.txns
    ensures var a3 := AbsNext(AbsNext(AbsNext(a, Step.Log(t, order)), Step.Apply(t)), Step.Finish(t));
            AbsGet(AbsNext(a3, Step.Begin(u)), u, k) ==
              if k in a.txns[t].writes then a.txns[t].writes[k] else AbsGet(AbsNext(a, Step.Begin(u)), u, k)
  {
  }

  lemma BeginAdds(s: Sys, u: TxnId)
    requires Allowed(s, Step.Begin(u))
    ensures u in Next(s, Step.Begin(u)).txns
  {
  }

  lemma LogIsLive(s: Sys, t: TxnId, order: seq<(Bytes, Bytes)>)
    requires Allowed(s, Step.Log(t, order))
    ensures t in s.txns
  {
  }

  lemma SimWrites(s: Sys, a: Abs, t: TxnId)
    requires Sim(s, a) && t in s.txns
    ensures t in a.txns && a.txns[t].writes == s.txns[t].writes
  {
  }

  /* ---------- Who sees what ---------- */

  /** No version that t can see is ever added after t began. */
  lemma {:induction false} NothingVisibleArrives(s: Sys, run: seq<Step>, t: TxnId)
    requires Inv(s) && AllowedRun(s, run) && t in s.txns && StaysLive(run, t)
    ensures Inv(After(s, run)) && t in After(s, run).txns
    ensures ReaderOf(After(s, run), t) == ReaderOf(s, t)
    ensures forall v :: v in Stored(After(s, run)) && v.txn != t && Visible(ReaderOf(s, t), v.txn) ==> v in Stored(s)
    decreases |run|
  {
    hide Inv, Enabled, Next, Stored;
    if run == [] {
    } else {
      var s' := Next(s, run[0]);
      InvPreserved(s, run[0]);
      StepAdds(s, run[0], t);
      assert forall i :: 0 <= i < |run[1..]| ==> run[1..][i] == run[i + 1];
      NothingVisibleArrives(s', run[1..], t);
    }
  }

  lemma StepAdds(s: Sys, step: Step, t: TxnId)
    requires Inv(s) && Allowed(s, step) && t in s.txns
    requires step != Restart && step != Rollback(t) && step != Finish(t)
    ensures t in Next(s, step).txns && ReaderOf(Next(s, step), t) == ReaderOf(s, t)
    ensures forall v :: v in Stored(Next(s, step)) && v.txn != t && Visible(ReaderOf(s, t), v.txn) ==> v in Stored(s)
  {
    hide LayersOk, WalOk, JobOk, LocksOk, FilesOk, Guarded;
    match step
    case Apply(u) =>
      ApplyKeeps(s, u);
      if u != t { RunningIsInvisible(s, u); }
    case FlushWrite => FlushWriteKeeps(s);
    case CompactFinish(out) => SwapStored(s, out);
    case _ =>
  }

  /** At every point of its life, the versions of other transactions that t sees are exactly
      those stored when it began and written by transactions that had finished by then. */
  lemma VisibleIsFinishedBeforeBegin(before: seq<Step>, during: seq<Step>, v: Version)
    requires AllowedRun(Init, before)
    requires var s := After(Init, before);
             && AllowedRun(Next(s, Begin(s.next)), during) && StaysLive(during, s.next)
             && v in Stored(After(Next(s, Begin(s.next)), during))
             && v.txn != s.next
    ensures var s := After(Init, before);
            var s2 := After(Next(s, Begin(s.next)), during);
            && s.next in s2.txns
            && (Visible(ReaderOf(s2, s.next), v.txn) <==> v in Stored(s) && v.txn !in s.active)
  {
    var s := After(Init, before);
    InitSim();
    RunRefines(Init, AbsInit, before);
    var s1 := Next(s, Begin(s.next));
    BeginKeeps(s, s.next);
    NothingVisibleArrives(s1, during, s.next);
    assert Stored(s1) == Stored(s);
    assert v in Stored(s) ==> v in Everything(s);
  }

  /* ---------- Durability ---------- */

  ghost function ToMap(order: seq<(Bytes, Bytes)>): Store {
    if order == [] then map[] else ToMap(order[..|order| - 1])[order[|order| - 1].0 := order[|order| - 1].1]
  }

  /** The transactions whose commit record reached the log, overlaid in log order. */
  ghost function LoggedWrites(run: seq<Step>): Store {
    if run == [] then map[]
    else
      var m, last := LoggedWrites(run[..|run| - 1]), run[|run| - 1];
      if last.Log? then m + ToMap(last.order) else m
  }

  lemma {:induction false} ToMapListing(order: seq<(Bytes, Bytes)>)
    requires forall i, j :: 0 <= i < j < |order| ==> order[i].0 != order[j].0
    ensures forall k :: k in ToMap(order) <==> exists i :: 0 <= i < |order| && order[i].0 == k
    ensures forall i :: 0 <= i < |order| ==> order[i].0 in ToMap(order) && ToMap(order)[order[i].0] == order[i].1
  {
    if order == [] {
    } else {
      var init := order[..|order| - 1];
      ToMapListing(init);
      forall k ensures k in ToMap(order) <==> exists i :: 0 <= i < |order| && order[i].0 == k {
        if k in ToMap(order) && k != order[|order| - 1].0 {
          assert k in ToMap(init);
          assert exists i :: 0 <= i < |init| && init[i].0 == k;
          var i :| 0 <= i < |init| && init[i].0 == k;
          assert order[i].0 == k;
        }
        if i :| 0 <= i < |order| && order[i].0 == k {
          if i < |init| { assert init[i].0 == k; }
        }
      }
    }
  }

  lemma ToMapOf(order: seq<(Bytes, Bytes)>, writes: Store)
    requires Listing(order, writes)
    ensures ToMap(order) == writes
  {
    ToMapListing(order);
    forall k | k in writes ensures k in ToMap(order) && ToMap(order)[k] == writes[k] {
      assert (k, writes[k]) in order;
      var i :| 0 <= i < |order| && order[i] == (k, writes[k]);
    }
  }

  lemma {:induction false} AfterSplit(s: Sys, a: Abs, run: seq<Step>, last: Step)
    requires AllowedRun(s, run + [last])
    ensures AllowedRun(s, run) && Allowed(After(s, run), last)
    ensures After(s, run + [last]) == Next(After(s, run), last)
    ensures AbsAfter(a, run + [last]) == AbsNext(AbsAfter(a, run), last)
    decreases |run|
  {
    var all := run + [last];
    if run == [] {
      assert all[0] == last && all[1..] == [];
    } else {
      assert all[0] == run[0] && all[1..] == run[1..] + [last];
      AfterSplit(Next(s, run[0]), AbsNext(a, run[0]), run[1..], last);
    }
  }

  lemma {:induction false} DurableIsLogged(run: seq<Step>)
    requires AllowedRun(Init, run)
    ensures AbsAfter(AbsInit, run).durable == LoggedWrites(run)
    decreases |run|
  {
    if run == [] {
    } else {
      var init, last := run[..|run| - 1], run[|run| - 1];
      assert run == init + [last];
      AfterSplit(Init, AbsInit, init, last);
      DurableIsLogged(init);
      if last.Log? {
        InitSim();
        RunRefines(Init, AbsInit, init);
        ToMapOf(last.order, After(Init, init).txns[last.txn].writes);
      }
    }
  }

  /** What a new transaction sees after recovery, wherever the run was cut, provided the log's largest
      id reaches every id in the files (the guard of Restart, which fails right after a log was
      cleared): exactly the transactions whose record was logged, each one whole, in log order. */
  lemma CommitsSurviveCrash(run: seq<Step>, t: TxnId, k: Bytes)
    requires AllowedRun(Init, run + [Restart] + [Begin(t)])
    requires NonEmptyFor(Stored(After(Init, run + [Restart] + [Begin(t)])), k)
    ensures var s := After(Init, run + [Restart] + [Begin(t)]);
            && t in s.txns
            && TxnGet(s, t, k) == if k in LoggedWrites(run) then LoggedWrites(run)[k] else []
  {
    AfterSplit(Init, AbsInit, run + [Restart], Begin(t));
    AfterSplit(Init, AbsInit, run, Restart);
    DurableIsLogged(run);
    SnapshotIsolation(run + [Restart] + [Begin(t)], t, k);
  }

  /** Outside the two windows of a commit or flush in progress, replaying the log rebuilds the
      memtable entry for entry, hence with the same size. */
  lemma ReplayRebuildsMemtable(run: seq<Step>)
    requires AllowedRun(Init, run)
    ensures var s := After(Init, run);
            !s.stale && !s.stage.Logged? ==> Replay(s.wal) == s.mem && Size(Replay(s.wal)) == Size(s.mem)
  {
    InitSim();
    RunRefines(Init, AbsInit, run);
  }

  /** Ids restart from the log alone. The first reader after a restart sees everything on disk
      exactly when no file holds an id beyond the log's largest one plus one. */
  lemma RestartIdsExact(run: seq<Step>)
    requires AllowedRun(Init, run)
    ensures var s := After(Init, run);
            var s' := Next(s, Restart);
            (forall v :: v in Stored(s') ==> Visible(Fresh(s'), v.txn))
            <==> (forall v :: v in FileSet(s.files) ==> v.txn <= MaxId(s.wal) + 1)
  {
    InitSim();
    RunRefines(Init, AbsInit, run);
    var s := After(Init, run);
    MaxIdBounds(s.wal);
    assert Stored(Next(s, Restart)) == FileSet(s.files) + LogSet(s.wal);
  }

  /* ---------- Locks, on every run the code can make ---------- */

  ghost predicate EnabledRun(s: Sys, run: seq<Step>)
    decreases |run|
  {
    run == [] || (Enabled(s, run[0]) && EnabledRun(Next(s, run[0]), run[1..]))
  }

  ghost function EndOf(s: Sys, run: seq<Step>): Sys
    requires EnabledRun(s, run)
    decreases |run|
  {
    if run == [] then s else EndOf(Next(s, run[0]), run[1..])
  }

  ghost predicate LockInv(s: Sys) {
    s.next >= 1 && (forall t :: t in s.txns ==> 1 <= t < s.next) && LocksOk(s)
  }

  lemma BeginLocks(s: Sys, t: TxnId)
    requires LockInv(s) && t == s.next
    ensures LockInv(Next(s, Begin(t)))
  {
    BeginKeepsLocks(s, t);
  }

  lemma SameLocks(s: Sys, s': Sys)
    requires LockInv(s) && s'.locks == s.locks && s'.txns == s.txns && s'.next == s.next
    ensures LockInv(s')
  {
  }

  lemma LockStep(s: Sys, step: Step)
    requires LockInv(s) && Enabled(s, step)
    ensures LockInv(Next(s, step))
  {
    hide LocksOk, Release;
    match step
    case Begin(t) => BeginLocks(s, t);
    case Put(t, k, v) => PutLocks(s, t, k, v);
    case Rollback(t) => EndLocks(s, t);
    case Finish(t) =>
      EndLocks(s, t);
      LocksSame(End(s, t), Next(s, step));
    case Restart => NoLocks(Next(s, Restart));
    case _ => SameLocks(s, Next(s, step));
  }

  lemma NoLocks(s: Sys)
    requires s.locks == map[] && s.txns == map[]
    ensures LocksOk(s)
  {
  }

  lemma {:induction false} LockRun(s: Sys, run: seq<Step>)
    requires LockInv(s) && EnabledRun(s, run)
    ensures LockInv(EndOf(s, run))
    decreases |run|
  {
    if run == [] {
    } else {
      LockStep(s, run[0]);
      LockRun(Next(s, run[0]), run[1..]);
    }
  }

  /** Two-phase locking over every run, with no assumption on order, horizons or restarts:
      live write sets are disjoint, a buffered key is locked by its owner, a key's writer is
      live and lists it once, ending a transaction leaves none of its locks behind, and the
      logged inconsistency never occurs. */
  lemma LockProtocol(run: seq<Step>, t: TxnId, u: TxnId, k: Bytes)
    requires EnabledRun(Init, run)
    ensures var s := EndOf(Init, run);
            && (t in s.txns && u in s.txns && t != u && k in s.txns[t].writes ==> k !in s.txns[u].writes)
            && (t in s.txns && k in s.txns[t].writes ==> k in s.locks && s.locks[k].writer == t)
            && (k in s.locks && s.locks[k].writer != 0 ==>
                  s.locks[k].writer in s.txns && multiset(s.txns[s.locks[k].writer].locked)[k] == 1)
            && (t in s.txns ==> !Inconsistent(s.locks, t, s.txns[t].locked))
            && (t in s.txns && k in End(s, t).locks ==> End(s, t).locks[k].writer != t)
  {
    LockRun(Init, run);
    var s := EndOf(Init, run);
    if t in s.txns {
      assert HoldsLocks(s.locks, t, s.txns[t]);
      EndLocks(s, t);
    }
    if u in s.txns { assert HoldsLocks(s.locks, u, s.txns[u]); }
    if k in s.locks && s.locks[k].writer != 0 {
      var w := s.locks[k].writer;
      assert HoldsLocks(s.locks, w, s.txns[w]);
      OnceInList(s.txns[w].locked, k);
    }
  }

  lemma {:induction false} OnceInList(keys: seq<Bytes>, k: Bytes)
    requires forall i, j :: 0 <= i < j < |keys| ==> keys[i] != keys[j]
    requires k in keys
    ensures multiset(keys)[k] == 1
  {
    var last, init := keys[|keys| - 1], keys[..|keys| - 1];
    assert keys == init + [last];
    if k in init {
      assert last != k;
      OnceInList(init, k);
    } else {
      assert multiset(init)[k] == 0;
    }
  }

  /* ---------- Which condition is enough, and where to check it ---------- */

  /** Checking the writer order when a key is first written, instead of at commit. */
  ghost predicate OrderedPut(s: Sys, step: Step) {
    step.Put? ==> forall v :: v in Stored(s) && v.key == step.key ==> v.txn < step.txn
  }

  ghost predicate PutCheckedRun(s: Sys, run: seq<Step>)
    decreases |run|
  {
    run == [] ||
    (var step := run[0];
     && Enabled(s, step) && OrderedPut(s, step) && (!step.Log? ==> Guarded(s, step))
     && PutCheckedRun(Next(s, step), run[1..]))
  }

  ghost predicate WritesAhead(s: Sys) {
    forall t, v :: t in s.txns && v in Stored(s) && v.key in s.txns[t].writes ==>
      v.txn < t || (v.txn == t && s.stage == Applied(t))
  }

  lemma WritesAheadApply(s: Sys, s': Sys, t: TxnId)
    requires LockInv(s) && WritesAhead(s) && t in s.txns && s.stage == Logged(t)
    requires s'.txns == s.txns && s'.stage == Applied(t)
    requires Stored(s') == Stored(s) + VersionsOf(s.txns[t].writes, t)
    ensures WritesAhead(s')
  {
  }

  /** Steps that add no version and start no write. */
  lemma WritesAheadSame(s: Sys, s': Sys)
    requires WritesAhead(s) && Stored(s') <= Stored(s) && (s'.stage == s.stage || s.stage == Idle)
    requires forall t :: t in s'.txns ==> t in s.txns && s'.txns[t].writes == s.txns[t].writes
    ensures WritesAhead(s')
  {
  }

  lemma WritesAheadPut(s: Sys, step: Step)
    requires step.Put? && WritesAhead(s) && Enabled(s, step) && OrderedPut(s, step)
    ensures WritesAhead(Next(s, step))
  {
  }

  lemma WritesAheadFinish(s: Sys, t: TxnId)
    requires WritesAhead(s) && Enabled(s, Finish(t))
    ensures WritesAhead(Next(s, Finish(t)))
  {
  }

  lemma WritesAheadBegin(s: Sys, t: TxnId)
    requires WritesAhead(s) && Enabled(s, Begin(t))
    ensures WritesAhead(Next(s, Begin(t)))
  {
  }

  lemma WritesAheadStep(s: Sys, step: Step)
    requires Inv(s) && WritesAhead(s) && Enabled(s, step) && OrderedPut(s, step)
    ensures WritesAhead(Next(s, step))
  {
    match step
    case Begin(t) => WritesAheadBegin(s, t);
    case Put(_, _, _) => WritesAheadPut(s, step);
    case Apply(t) => ApplyKeeps(s, t); WritesAheadApply(s, Next(s, step), t);
    case Finish(t) => WritesAheadFinish(s, t);
    case Restart =>
    case FlushWrite => FlushWriteKeeps(s); WritesAheadSame(s, Next(s, step));
    case CompactFinish(out) => SwapStored(s, out); WritesAheadSame(s, Next(s, step));
    case _ => WritesAheadSame(s, Next(s, step));
  }

  /** If every Put finds no newer stored version of its key, every commit is ordered: the
      write lock keeps the key still until the transaction ends. */
  lemma {:induction false} PutGuardSuffices(s: Sys, run: seq<Step>)
    requires Inv(s) && WritesAhead(s) && PutCheckedRun(s, run)
    ensures AllowedRun(s, run)
    decreases |run|
  {
    if run == [] {
    } else {
      assert Allowed(s, run[0]);
      WritesAheadStep(s, run[0]);
      InvPreserved(s, run[0]);
      PutGuardSuffices(Next(s, run[0]), run[1..]);
    }
  }

  ghost predicate BelowSnapshots(s: Sys, m: nat) {
    forall t: TxnId, x: TxnId :: t in s.txns && x in s.txns[t].snapshot ==> m < x
  }

  /** The bound of docs/journal/part_mvcc.md: any horizon below every id in every live snapshot
      is safe, for the readers that are live and for all that begin later. */
  lemma LocalMinimaAreSafe(run: seq<Step>, m: nat)
    requires AllowedRun(Init, run)
    requires BelowSnapshots(After(Init, run), m)
    ensures SafeFor(After(Init, run), FileSet(After(Init, run).files), m)
  {
    InitSim();
    RunRefines(Init, AbsInit, run);
    var s := After(Init, run);
    var vs := FileSet(s.files);
    assert forall v :: v in vs ==> v in Everything(s) && v in Stored(s);
    forall t | t in s.txns ensures !Loses(vs, m, ReaderOf(s, t)) {
      assert t in s.txns[t].snapshot;
      forall v | v in vs && v.txn <= m ensures Visible(ReaderOf(s, t), v.txn) {
        assert v.txn in s.txns[t].snapshot ==> m < v.txn;
      }
      SafeHorizon(vs, m, ReaderOf(s, t));
    }
    forall v | v in vs && v.txn <= m ensures Visible(Fresh(s), v.txn) {
    }
    SafeHorizon(vs, m, Fresh(s));
  }
}
