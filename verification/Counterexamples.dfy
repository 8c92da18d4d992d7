/** Concrete runs that the code allows and that break a read, one per condition which the
    theorems of Isolation assume and the code does not check. */
module Counterexamples {
  import opened Bytes
  import opened Mvcc
  import opened Memtables
  import opened Layers
  import opened Compaction
  import opened Engine
  import opened EngineLemmas
  import opened Isolation

  const K: Bytes := [107]
  const A: Bytes := [1]
  const B: Bytes := [2]

  lemma {:induction false} Extend(start: Sys, run: seq<Step>, s: Sys, step: Step) returns (run': seq<Step>, s': Sys)
    requires EnabledRun(start, run) && EndOf(start, run) == s && Enabled(s, step)
    ensures run' == run + [step] && EnabledRun(start, run') && s' == Next(s, step) == EndOf(start, run')
    decreases |run|
  {
    run', s' := run + [step], Next(s, step);
    if run == [] {
      assert run'[1..] == [];
    } else {
      assert run'[0] == run[0] && run'[1..] == run[1..] + [step];
      var _, _ := Extend(Next(start, run[0]), run[1..], s, step);
    }
  }

  /** One transaction that wrote only K goes through its whole commit and the log is flushed. */
  lemma CommitAndFlush(run: seq<Step>, s: Sys, t: TxnId, v: Bytes) returns (run': seq<Step>, s': Sys)
    requires EnabledRun(Init, run) && EndOf(Init, run) == s
    requires t in s.txns && t != 0 && s.stage == Idle && !s.stale && s.mem == [] && s.job == NoJob
    requires s.txns[t].writes == map[K := v] && s.txns[t].locked == [K] && s.locks == map[K := LocksAcquired(t, [])]
    ensures EnabledRun(Init, run') && EndOf(Init, run') == s'
    ensures s'.next == s.next && s'.active == s.active - {t} && s'.txns == s.txns - {t}
    ensures s'.locks == map[K := LocksAcquired(0, [])]
    ensures s'.mem == [] && s'.wal == [] && s'.stage == Idle && !s'.stale && s'.job == NoJob
    ensures s'.files == s.files + [File(s.nextFile, [Version(K, v, t)])] && s'.nextFile == s.nextFile + 1
  {
    var order := [(K, v)];
    assert order[0] == (K, v);
    var r1, s1 := Extend(Init, run, s, Log(t, order));
    var r2, s2 := Extend(Init, r1, s1, Apply(t));
    assert order[1..] == [];
    assert s2.mem == PutAll(Upsert([], Version(K, v, t)), [], t) == [Version(K, v, t)];
    var r3, s3 := Extend(Init, r2, s2, Finish(t));
    assert [K][1..] == [];
    assert s3.locks == Release(s.locks[K := LocksAcquired(0, [])], t, []);
    var r4, s4 := Extend(Init, r3, s3, FlushWrite);
    run', s' := Extend(Init, r4, s4, FlushClear);
  }

  lemma BeginWriting(run: seq<Step>, s: Sys, v: Bytes) returns (run': seq<Step>, s': Sys)
    requires EnabledRun(Init, run) && EndOf(Init, run) == s
    requires s.stage == Idle && s.next != 0
    requires s.locks == map[] || s.locks == map[K := LocksAcquired(0, [])]
    ensures EnabledRun(Init, run') && EndOf(Init, run') == s'
    ensures s' == s.(next := s.next + 1, active := s.active + {s.next}, locks := map[K := LocksAcquired(s.next, [])],
                     txns := s.txns[s.next := Txn(s.active + {s.next}, map[K := v], [K])])
  {
    var r1, s1 := Extend(Init, run, s, Begin(s.next));
    run', s' := Extend(Init, r1, s1, Put(s.next, K, v));
    assert [] + [K] == [K] && map[][K := v] == map[K := v];
    assert s'.locks == map[K := LocksAcquired(s.next, [])];
    assert s'.txns == s.txns[s.next := Txn(s.active + {s.next}, map[K := v], [K])];
  }

  /** Flushing an empty memtable adds an empty file. */
  lemma EmptyFlush(run: seq<Step>, s: Sys) returns (run': seq<Step>, s': Sys)
    requires EnabledRun(Init, run) && EndOf(Init, run) == s
    requires s.mem == [] && s.wal == [] && !s.stale && s.stage == Idle
    ensures EnabledRun(Init, run') && EndOf(Init, run') == s'
    ensures s' == s.(files := s.files + [File(s.nextFile, [])], nextFile := s.nextFile + 1)
  {
    var r1, s1 := Extend(Init, run, s, FlushWrite);
    run', s' := Extend(Init, r1, s1, FlushClear);
  }

  /** The horizon flushMemtableToSsTable passes to a compaction. */
  ghost predicate IsMinActive(s: Sys, m: nat) {
    && (s.active == {} ==> m == TWO_64 - 1)
    && (s.active != {} ==> m in s.active && forall t :: t in s.active ==> m <= t)
  }

  const VA: Version := Version(K, A, 1)
  const VB: Version := Version(K, B, 2)

  /** Transaction 3 is running, began while 2 was, and 2 has committed since. */
  ghost predicate Overtaken(s: Sys) {
    && s.active == {3} && s.txns == map[3 := Txn({2, 3}, map[], [])]
    && s.mem == [] && s.job == NoJob && s.nextFile == 4
    && s.files == [File(0, [VA]), File(1, [VB]), File(2, []), File(3, [])]
  }

  lemma ReachOvertaken() returns (run: seq<Step>)
    ensures EnabledRun(Init, run) && Overtaken(EndOf(Init, run))
  {
    var r1, s1 := BeginWriting([], Init, A);
    var r2, s2 := CommitAndFlush(r1, s1, 1, A);
    assert s2.active == {} && s2.txns == map[];
    var r3, s3 := BeginWriting(r2, s2, B);
    var r4, s4 := Extend(Init, r3, s3, Begin(3));
    assert s2.active + {2} == {2} && s3.active + {3} == {2, 3};
    assert s4.active == {2, 3} && s4.txns == map[2 := Txn({2}, map[K := B], [K]), 3 := Txn({2, 3}, map[], [])];
    var r5, s5 := CommitAndFlush(r4, s4, 2, B);
    assert s5.active == {3} && s5.txns == map[3 := Txn({2, 3}, map[], [])];
    var r6, s6 := EmptyFlush(r5, s5);
    var s: Sys;
    run, s := EmptyFlush(r6, s6);
  }

  lemma OvertakenLoses(s: Sys)
    requires Overtaken(s)
    ensures FileSet(s.files) == {VA, VB} && Compact({VA, VB}, 3) == {VB}
    ensures !SafeFor(s, FileSet(s.files), 3)
  {
    FourFiles(File(0, [VA]), File(1, [VB]), File(2, []), File(3, []));
    assert FileSet(s.files) == {VA, VB};
    assert Picks({VA, VB}, K, ReaderOf(s, 3), VA);
    assert Loses({VA, VB}, 3, ReaderOf(s, 3));
  }

  /** The code's own horizon loses a live reader's version: transaction 3 began while 2 was
      running, 2 then committed, and compaction at the smallest active id, 3, keeps version 2,
      which 3 cannot see, and drops version 1, which 3 must read. */
  lemma MinActiveHorizonLosesReads() returns (run: seq<Step>)
    ensures EnabledRun(Init, run)
    ensures var s := EndOf(Init, run);
            && IsMinActive(s, 3) && 3 in s.txns && Enabled(s, CompactStart(3))
            && !SafeFor(s, FileSet(s.files), 3)
            && Enabled(Next(s, CompactStart(3)), CompactFinish([VB]))
            && 3 in Next(Next(s, CompactStart(3)), CompactFinish([VB])).txns
            && TxnGet(s, 3, K) == A
            && TxnGet(Next(Next(s, CompactStart(3)), CompactFinish([VB])), 3, K) == []
  {
    run := ReachOvertaken();
    var s := EndOf(Init, run);
    OvertakenLoses(s);
    ReadBefore(s, File(0, [VA]), File(1, [VB]), File(2, []), File(3, []));
    assert Elems([VB]) == {VB};
    ReadAfter(s);
  }

  lemma ReadAfter(s: Sys)
    requires Overtaken(s) && Enabled(s, CompactStart(3)) && Enabled(Next(s, CompactStart(3)), CompactFinish([VB]))
    ensures var s' := Next(Next(s, CompactStart(3)), CompactFinish([VB]));
            3 in s'.txns && TxnGet(s', 3, K) == []
  {
    var s' := Next(Next(s, CompactStart(3)), CompactFinish([VB]));
    SwapKeepsNewFiles(s.files, s.files, File(4, [VB]));
    assert s'.files == [File(4, [VB])];
    assert Runs(s'.files) == [[VB]];
    assert [VB][..0] == [] && [[VB]][..0] == [];
    assert LastVisible([VB], K, ReaderOf(s', 3)) == LastVisible([], K, ReaderOf(s', 3));
    assert FilesGet([[VB]], K, ReaderOf(s', 3)) == FilesGet([], K, ReaderOf(s', 3));
  }

  lemma FourFiles(f0: File, f1: File, f2: File, f3: File)
    ensures FileSet([f0, f1, f2, f3]) == Elems(f0.entries) + Elems(f1.entries) + Elems(f2.entries) + Elems(f3.entries)
  {
    FileSetSplit([f0], [f1]);
    FileSetSplit([f0, f1], [f2]);
    FileSetSplit([f0, f1, f2], [f3]);
    FileSetOne(f0);
    FileSetOne(f1);
    FileSetOne(f2);
    FileSetOne(f3);
    assert [f0] + [f1] == [f0, f1] && [f0, f1] + [f2] == [f0, f1, f2] && [f0, f1, f2] + [f3] == [f0, f1, f2, f3];
  }

  lemma ReadBefore(s: Sys, f0: File, f1: File, f2: File, f3: File)
    requires s.txns == map[3 := Txn({2, 3}, map[], [])] && s.mem == [] && s.files == [f0, f1, f2, f3]
    requires f0.entries == [Version(K, A, 1)] && f1.entries == [Version(K, B, 2)] && f2.entries == [] && f3.entries == []
    ensures TxnGet(s, 3, K) == A
  {
    var r := ReaderOf(s, 3);
    var fs := Runs(s.files);
    assert fs == [f0.entries, f1.entries, f2.entries, f3.entries];
    assert fs[..3] == [f0.entries, f1.entries, f2.entries] && fs[..3][..2] == [f0.entries, f1.entries];
    assert fs[..3][..2][..1] == [f0.entries];
    assert LastVisible(f1.entries, K, r) == LastVisible([], K, r) by { assert f1.entries[..0] == []; }
    assert LastVisible(f0.entries, K, r) == Some(Version(K, A, 1));
    assert FilesGet(fs[..3][..2][..1], K, r) == A;
    assert FilesGet(fs[..3][..2], K, r) == A;
    assert FilesGet(fs[..3], K, r) == A;
  }

  /** Unordered writers: 2 commits K and is flushed, then 1 commits K and is flushed. The newer
      file holds the older version, so Get returns it, while version 2 is the newest. */
  lemma UnorderedWritersMisread() returns (run: seq<Step>)
    ensures EnabledRun(Init, run)
    ensures var s := EndOf(Init, run);
            && Runs(s.files) == [[Version(K, B, 2)], [Version(K, A, 1)]] && s.mem == []
            && StoreGet(s.mem, Runs(s.files), K, Fresh(s)) == A
            && Picks(Stored(s), K, Fresh(s), Version(K, B, 2))
  {
    var r0, s0 := Extend(Init, [], Init, Begin(1));
    var r1, s1 := BeginWriting(r0, s0, B);
    var r2, s2 := CommitAndFlush(r1, s1, 2, B);
    var r3, s3 := Extend(Init, r2, s2, Put(1, K, A));
    var s: Sys;
    run, s := CommitAndFlush(r3, s3, 1, A);
    MisreadsOld(s);
  }

  /** Version 1 in the newer file, version 2 in the older one, and a reader that sees both. */
  lemma MisreadsOld(s: Sys)
    requires s.files == [File(0, [Version(K, B, 2)]), File(1, [Version(K, A, 1)])] && s.mem == []
    requires s.next == 3 && s.active == {}
    ensures Runs(s.files) == [[Version(K, B, 2)], [Version(K, A, 1)]]
    ensures StoreGet(s.mem, Runs(s.files), K, Fresh(s)) == A
    ensures Picks(Stored(s), K, Fresh(s), Version(K, B, 2))
  {
    var va, vb := Version(K, A, 1), Version(K, B, 2);
    assert Runs(s.files) == [[vb], [va]];
    assert LastVisible([va], K, Fresh(s)) == Some(va);
    FileSetSplit([File(0, [vb])], [File(1, [va])]);
    FileSetOne(File(0, [vb]));
    FileSetOne(File(1, [va]));
    assert [File(0, [vb])] + [File(1, [va])] == s.files;
    assert Stored(s) == {va, vb};
  }

  /** Restart ids: after a flush the log is empty, so ids start again at 1 and the next reader
      cannot see what transaction 2 committed. */
  lemma RestartHidesFlushedWrites() returns (run: seq<Step>)
    ensures EnabledRun(Init, run)
    ensures var s := Next(EndOf(Init, run), Restart);
            && Version(K, B, 2) in Stored(s)
            && StoreGet(s.mem, Runs(s.files), K, Fresh(s)) == []
  {
    var r0, s0 := Extend(Init, [], Init, Begin(1));
    var r1, s1 := BeginWriting(r0, s0, B);
    var s2: Sys;
    run, s2 := CommitAndFlush(r1, s1, 2, B);
    var s := Next(s2, Restart);
    var vb := Version(K, B, 2);
    assert s.files == [File(0, [vb])] && s.mem == [] && s.next == 1;
    FileSetOne(File(0, [vb]));
    assert Runs(s.files) == [[vb]];
    assert [vb][..0] == [] && [[vb]][..0] == [];
    assert LastVisible([vb], K, Fresh(s)) == LastVisible([], K, Fresh(s));
    assert FilesGet([[vb]], K, Fresh(s)) == FilesGet([], K, Fresh(s));
  }
}
