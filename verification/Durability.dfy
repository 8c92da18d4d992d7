/** What files and log hold together at every point of a run: every logged commit, whole. No
    restart is assumed, so every cut counts, also the one right after the log was cleared. */
module Durability {
  import opened Bytes
  import opened Mvcc
  import opened Compaction
  import opened Engine
  import opened EngineLemmas
  import opened EngineInvariant
  import opened Snapshots
  import opened Isolation

  /** Cut the run at any point at all, between the log append and the memtable, between the file
      write and the truncation of the log, or right after it: what files and log hold together
      reads exactly as the transactions whose record was logged, each one whole, in log order. */
  lemma DiskReadsAsLogged(run: seq<Step>)
    requires AllowedRun(Init, run)
    ensures ReadsAs(OnDisk(After(Init, run)), SeesAll(After(Init, run)), LoggedWrites(run), {})
  {
    InitSim();
    RunRefines(Init, AbsInit, run);
    DurableIsLogged(run);
  }

  /* ---------- Versions, not only reads ---------- */

  /** The versions whose commit record was written. */
  ghost function LoggedVersions(run: seq<Step>): set<Version> {
    if run == [] then {}
    else
      var vs, last := LoggedVersions(run[..|run| - 1]), run[|run| - 1];
      if last.Log? then vs + RecordSet(Record(last.txn, last.order)) else vs
  }

  predicate HasCompaction(run: seq<Step>) {
    exists i :: 0 <= i < |run| && run[i].CompactFinish?
  }

  /** A newer version of the same key is there. */
  ghost predicate Superseded(vs: set<Version>, x: Version) {
    exists w :: w in vs && w.key == x.key && x.txn < w.txn
  }

  /** Logged, but not in the memtable yet. */
  ghost predicate Pending(s: Sys, x: Version) {
    s.stage == Logged(x.txn) && s.wal != [] && x in RecordSet(s.wal[|s.wal| - 1])
  }

  ghost predicate Accounted(s: Sys, x: Version, compacted: bool) {
    x in Stored(s) || Pending(s, x) || (compacted && Superseded(Stored(s), x))
  }

  /** What compaction takes away it replaces by something newer. */
  lemma SupersededLasts(vs: set<Version>, m: nat, rest: set<Version>, x: Version)
    requires x in vs + rest || Superseded(vs + rest, x)
    ensures x in Compact(vs, m) + rest || Superseded(Compact(vs, m) + rest, x)
  {
    var y := x;
    if x !in vs + rest {
      y :| y in vs + rest && y.key == x.key && x.txn < y.txn;
    }
    if y in vs && y !in Compact(vs, m) {
      var z :| z in vs && z.key == y.key && y.txn < z.txn <= m;
      TopSurvives(vs, m, z);
    }
  }

  /** Memtable and files are contained in files and log. */
  lemma StoredIsOnDisk(s: Sys)
    requires Inv(s)
    ensures Stored(s) <= OnDisk(s)
    ensures forall x :: Pending(s, x) ==> x in OnDisk(s)
  {
    if s.stage.Logged? {
      ApplyStore(s, s.stage.txn);
      LogAndReplay(s.wal);
    }
  }

  lemma SwapAccounts(s: Sys, out: seq<Version>, x: Version, compacted: bool)
    requires FilesOk(s) && Enabled(s, CompactFinish(out)) && Accounted(s, x, compacted)
    ensures Accounted(Next(s, CompactFinish(out)), x, true)
  {
    hide Stored, Compact, Superseded;
    var s' := Next(s, CompactFinish(out));
    SwapShape(s, s', out);
    var rest := FileSet(s.files[|s.job.inputs|..]) + Elems(s.mem);
    if !Pending(s, x) { SupersededLasts(FileSet(s.job.inputs), s.job.horizon, rest, x); }
  }

  lemma ApplyAccounts(s: Sys, t: TxnId, x: Version, compacted: bool)
    requires Inv(s) && Enabled(s, Apply(t)) && Accounted(s, x, compacted)
    ensures Accounted(Next(s, Apply(t)), x, compacted)
  {
    hide LayersOk, JobOk, LocksOk, FilesOk, Stored;
    ApplyKeeps(s, t);
    ListingSet(s.wal[|s.wal| - 1].writes, s.txns[t].writes, t);
  }

  lemma RestartAccounts(s: Sys, x: Version, compacted: bool)
    requires Inv(s) && Allowed(s, Restart) && Accounted(s, x, compacted)
    ensures Accounted(Next(s, Restart), x, compacted)
  {
    hide Inv, Stored;
    RestartKeeps(s);
    StoredIsOnDisk(s);
  }

  /** All other steps keep the stored versions; only Log, when nothing is pending, makes some pending. */
  lemma QuietAccounts(s: Sys, step: Step, x: Version, compacted: bool)
    requires WalOk(s) && Enabled(s, step) && Accounted(s, x, compacted)
    requires !step.Apply? && !step.FlushWrite? && !step.CompactFinish? && !step.Restart?
    ensures Accounted(Next(s, step), x, compacted)
  {
    hide Release, Superseded;
    var s' := Next(s, step);
    StoreSameHere(s, s');
  }

  lemma StoreSameHere(s: Sys, s': Sys)
    requires s'.mem == s.mem && s'.files == s.files
    ensures Stored(s') == Stored(s)
  {
  }

  lemma StepAccounts(s: Sys, step: Step, x: Version, compacted: bool)
    requires Inv(s) && Allowed(s, step) && Accounted(s, x, compacted)
    ensures Accounted(Next(s, step), x, compacted || step.CompactFinish?)
  {
    hide Accounted, Next;
    match step
    case Apply(t) => ApplyAccounts(s, t, x, compacted);
    case FlushWrite => FlushAccounts(s, x, compacted);
    case CompactFinish(out) => SwapAccounts(s, out, x, compacted);
    case Restart => RestartAccounts(s, x, compacted);
    case _ => QuietAccounts(s, step, x, compacted);
  }

  lemma FlushAccounts(s: Sys, x: Version, compacted: bool)
    requires Inv(s) && Enabled(s, FlushWrite) && Accounted(s, x, compacted)
    ensures Accounted(Next(s, FlushWrite), x, compacted)
  {
    hide Inv, Stored;
    FlushWriteKeeps(s);
  }

  /** Log enters exactly its own record. */
  lemma StepLogs(s: Sys, step: Step)
    requires Inv(s) && Allowed(s, step)
    ensures OnDisk(Next(s, step)) <= OnDisk(s) + if step.Log? then RecordSet(Record(step.txn, step.order)) else {}
    ensures step.Log? ==> forall x :: x in RecordSet(Record(step.txn, step.order)) ==> Pending(Next(s, step), x)
  {
    hide IdsOk, SnapshotsOk, LayersOk, StageOk, WalOk, JobOk, LocksOk, Guarded, Compact;
    var s' := Next(s, step);
    match step
    case Log(t, order) =>
      assert s'.wal[..|s'.wal| - 1] == s.wal;
      assert LogSet(s'.wal) == LogSet(s.wal) + RecordSet(Record(t, order));
    case FlushWrite => FlushDisk(s);
    case CompactFinish(out) => SwapStored(s, out);
    case _ =>
  }

  lemma FlushDisk(s: Sys)
    requires Inv(s) && Enabled(s, FlushWrite)
    ensures OnDisk(Next(s, FlushWrite)) == OnDisk(s)
  {
    FlushWriteKeeps(s);
    StoredIsOnDisk(s);
    FileSetSplit(s.files, [File(s.nextFile, s.mem)]);
    FileSetOne(File(s.nextFile, s.mem));
  }

  /** At every point of every allowed run, nothing is stored that was not logged, and every logged
      version is stored or still pending; only a compaction may have put a newer version in its place. */
  lemma {:induction false} LoggedIsAccounted(run: seq<Step>)
    requires AllowedRun(Init, run)
    ensures Inv(After(Init, run))
    ensures OnDisk(After(Init, run)) <= LoggedVersions(run)
    ensures forall x :: x in LoggedVersions(run) ==> Accounted(After(Init, run), x, HasCompaction(run))
    decreases |run|
  {
    hide Inv, Accounted, OnDisk, Allowed, AllowedRun, After, Next, LoggedVersions, HasCompaction;
    if run == [] {
      StartsEmpty();
    } else {
      var init, last := run[..|run| - 1], run[|run| - 1];
      assert run == init + [last];
      AfterSplit(Init, AbsInit, init, last);
      LoggedIsAccounted(init);
      var s := After(Init, init);
      InvPreserved(s, last);
      StepLogs(s, last);
      CompactionSoFar(init, last);
      LoggedSoFar(init, last);
      forall x | x in LoggedVersions(run) ensures Accounted(After(Init, run), x, HasCompaction(run)) {
        if x in LoggedVersions(init) {
          StepAccounts(s, last, x, HasCompaction(init));
        } else {
          PendingIsAccounted(Next(s, last), x, HasCompaction(run));
        }
      }
    }
  }

  lemma StartsEmpty()
    ensures Inv(Init) && OnDisk(Init) == {} && AllowedRun(Init, []) && After(Init, []) == Init && LoggedVersions([]) == {}
  {
    InitInv();
  }

  lemma LoggedSoFar(init: seq<Step>, last: Step)
    ensures LoggedVersions(init + [last]) ==
            LoggedVersions(init) + if last.Log? then RecordSet(Record(last.txn, last.order)) else {}
  {
    assert (init + [last])[..|init|] == init;
  }

  lemma CompactionSoFar(init: seq<Step>, last: Step)
    ensures HasCompaction(init + [last]) <==> HasCompaction(init) || last.CompactFinish?
  {
    if HasCompaction(init) {
      var i :| 0 <= i < |init| && init[i].CompactFinish?;
      assert (init + [last])[i].CompactFinish?;
    }
    if last.CompactFinish? {
      assert (init + [last])[|init|].CompactFinish?;
    }
  }

  lemma PendingIsAccounted(s: Sys, x: Version, compacted: bool)
    requires Pending(s, x)
    ensures Accounted(s, x, compacted)
  {
  }

  /** Durability through commit and flush: without a finished compaction, files and log together hold
      exactly the versions whose commit record was written, at every intermediate point. */
  lemma DiskIsLogged(run: seq<Step>)
    requires AllowedRun(Init, run) && !HasCompaction(run)
    ensures OnDisk(After(Init, run)) == LoggedVersions(run)
  {
    hide Inv, OnDisk, Stored;
    LoggedIsAccounted(run);
    StoredIsOnDisk(After(Init, run));
  }

  /** With compactions, what is missing from files and log has been superseded there. */
  lemma MissingIsSuperseded(run: seq<Step>, x: Version)
    requires AllowedRun(Init, run) && x in LoggedVersions(run)
    ensures x in OnDisk(After(Init, run)) || Superseded(OnDisk(After(Init, run)), x)
  {
    hide Inv, OnDisk, Stored;
    LoggedIsAccounted(run);
    StoredIsOnDisk(After(Init, run));
  }

  /* ---------- Atomic visibility ---------- */

  lemma {:induction false} AfterJoin(s: Sys, a: seq<Step>, b: seq<Step>)
    requires AllowedRun(s, a) && AllowedRun(After(s, a), b)
    ensures AllowedRun(s, a + b) && After(s, a + b) == After(After(s, a), b)
    decreases |a|
  {
    hide Enabled, Guarded, Next;
    if a == [] {
      assert a + b == b;
    } else {
      assert (a + b)[0] == a[0] && (a + b)[1..] == a[1..] + b;
      AfterJoin(Next(s, a[0]), a[1..], b);
    }
  }

  /** Another transaction's writes are seen all together or not at all. If t sees one of them at some
      point of its life, then every version that transaction ever logged is stored and visible, and
      was stored when t began; one that is not stored was removed by a compaction that left a newer
      version of its key. */
  lemma AllOrNothing(before: seq<Step>, during: seq<Step>, v: Version, x: Version)
    requires AllowedRun(Init, before)
    requires var s := After(Init, before);
             && AllowedRun(Next(s, Begin(s.next)), during) && StaysLive(during, s.next)
             && v in Stored(After(Next(s, Begin(s.next)), during))
             && v.txn == x.txn != s.next
             && x in LoggedVersions(before + ([Begin(s.next)] + during))
    ensures var s := After(Init, before);
            var s2 := After(Next(s, Begin(s.next)), during);
            && s.next in s2.txns
            && (Visible(ReaderOf(s2, s.next), v.txn) ==>
                  if x in Stored(s2) then x in Stored(s) && Visible(ReaderOf(s2, s.next), x.txn)
                  else HasCompaction(before + ([Begin(s.next)] + during)) && Superseded(Stored(s2), x))
  {
    hide Inv, Enabled, Guarded, Stored, Next;
    var s := After(Init, before);
    var t := s.next;
    VisibleIsFinishedBeforeBegin(before, during, v);
    var rest := [Begin(t)] + during;
    assert rest[0] == Begin(t) && rest[1..] == during;
    BeginAllowed(s);
    AfterJoin(Init, before, rest);
    var s2 := After(Next(s, Begin(t)), during);
    LoggedIsAccounted(before + rest);
    if Visible(ReaderOf(s2, t), v.txn) {
      PendingIsRunning(s2, x, t);
      if x in Stored(s2) { VisibleIsFinishedBeforeBegin(before, during, x); }
    }
  }

  lemma BeginAllowed(s: Sys)
    ensures Allowed(s, Begin(s.next))
  {
  }

  lemma PendingIsRunning(s: Sys, x: Version, t: TxnId)
    requires Inv(s) && t in s.txns && x.txn != t
    ensures Pending(s, x) ==> !Visible(ReaderOf(s, t), x.txn)
  {
    if Pending(s, x) { RunningIsInvisible(s, x.txn); }
  }
}
