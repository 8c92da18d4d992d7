/** The storage engine as a state machine (db/db.go, db/transaction.go, sstable/compaction.go).
    Commit and flush are cut at every point where a crash leaves a different durable state;
    compaction is cut at taking the file list and at the swap. A file is its sorted entries. */
module Engine {
  import opened Bytes
  import opened Mvcc
  import opened Memtables
  import opened Layers
  import opened Compaction

  datatype LocksAcquired = LocksAcquired(writer: TxnId, readers: seq<TxnId>)

  datatype Txn = Txn(snapshot: set<TxnId>, writes: map<Bytes, Bytes>, locked: seq<Bytes>)

  datatype File = File(name: nat, entries: seq<Version>)

  /** One committed transaction in the write-ahead log. */
  datatype Record = Record(txn: TxnId, writes: seq<(Bytes, Bytes)>)

  /** How far the one commit in progress has come. */
  datatype Stage = Idle | Logged(txn: TxnId) | Applied(txn: TxnId)

  datatype Job = NoJob | Job(horizon: nat, inputs: seq<File>)

  datatype Sys = Sys(
    next: TxnId,
    active: set<TxnId>,
    locks: map<Bytes, LocksAcquired>,
    txns: map<TxnId, Txn>,
    mem: seq<Version>,
    files: seq<File>,
    nextFile: nat,
    wal: seq<Record>,
    stage: Stage,
    stale: bool,        // flushed to a file and cleared from memory, still in the log
    job: Job)

  datatype Step =
    | Begin(txn: TxnId)
    | Put(txn: TxnId, key: Bytes, value: Bytes)
    | Rollback(txn: TxnId)
    | Log(txn: TxnId, order: seq<(Bytes, Bytes)>)
    | Apply(txn: TxnId)
    | Finish(txn: TxnId)
    | FlushWrite
    | FlushClear
    | CompactStart(horizon: nat)
    | CompactFinish(out: seq<Version>)
    | Restart

  const Init: Sys := Sys(1, {}, map[], map[], [], [], 0, [], Idle, false, NoJob)

  /* ---------- Views of a state ---------- */

  function ReaderOf(s: Sys, t: TxnId): Reader
    requires t in s.txns
  {
    Reader(t, s.txns[t].snapshot)
  }

  /** The reader that a Begin at this moment would create. */
  function Fresh(s: Sys): Reader {
    Reader(s.next, s.active + {s.next})
  }

  function Runs(files: seq<File>): (r: seq<seq<Version>>)
    ensures |r| == |files|
    ensures forall i :: 0 <= i < |files| ==> r[i] == files[i].entries
  {
    seq(|files|, i requires 0 <= i < |files| => files[i].entries)
  }

  ghost function FileSet(files: seq<File>): set<Version> {
    set i, v | 0 <= i < |files| && v in files[i].entries :: v
  }

  ghost function Stored(s: Sys): set<Version> {
    FileSet(s.files) + Elems(s.mem)
  }

  ghost function FileLayers(files: seq<File>): (r: seq<set<Version>>)
    ensures |r| == |files|
    ensures forall i :: 0 <= i < |files| ==> r[i] == Elems(files[i].entries)
  {
    seq(|files|, i requires 0 <= i < |files| => Elems(files[i].entries))
  }

  ghost function RecordSet(rec: Record): set<Version> {
    set i | 0 <= i < |rec.writes| :: Version(rec.writes[i].0, rec.writes[i].1, rec.txn)
  }

  ghost function LogSet(wal: seq<Record>): set<Version> {
    if wal == [] then {} else LogSet(wal[..|wal| - 1]) + RecordSet(wal[|wal| - 1])
  }

  ghost function VersionsOf(writes: map<Bytes, Bytes>, t: TxnId): set<Version> {
    set k | k in writes :: Version(k, writes[k], t)
  }

  /** order lists the write map once per key: one of the iteration orders of a Go map. */
  ghost predicate Listing(order: seq<(Bytes, Bytes)>, writes: map<Bytes, Bytes>) {
    && (forall i, j :: 0 <= i < j < |order| ==> order[i].0 != order[j].0)
    && (forall i :: 0 <= i < |order| ==> order[i].0 in writes && writes[order[i].0] == order[i].1)
    && (forall k :: k in writes ==> (k, writes[k]) in order)
  }

  function PutAll(mem: seq<Version>, writes: seq<(Bytes, Bytes)>, t: TxnId): seq<Version>
    decreases |writes|
  {
    if writes == [] then mem
    else PutAll(Upsert(mem, Version(writes[0].0, writes[0].1, t)), writes[1..], t)
  }

  /** buildMemtableFromWal on the decoded records. */
  function Replay(wal: seq<Record>): seq<Version> {
    if wal == [] then []
    else
      var rec := wal[|wal| - 1];
      PutAll(Replay(wal[..|wal| - 1]), rec.writes, rec.txn)
  }

  function MaxId(wal: seq<Record>): TxnId {
    if wal == [] then 0
    else
      var m, t := MaxId(wal[..|wal| - 1]), wal[|wal| - 1].txn;
      if t > m then t else m
  }

  /* ---------- Locks ---------- */

  predicate LockedByOther(s: Sys, t: TxnId, k: Bytes) {
    k in s.locks && s.locks[k].writer != 0 && s.locks[k].writer != t
  }

  /** releaseAllLocks: clear the writer, or drop the transaction from the readers. */
  function Release(locks: map<Bytes, LocksAcquired>, t: TxnId, keys: seq<Bytes>): map<Bytes, LocksAcquired> {
    if keys == [] then locks
    else
      var k := keys[0];
      if k !in locks then Release(locks, t, keys[1..])
      else if locks[k].writer == t then Release(locks[k := locks[k].(writer := 0)], t, keys[1..])
      else Release(locks[k := locks[k].(readers := Without(locks[k].readers, t))], t, keys[1..])
  }

  function Without(ids: seq<TxnId>, t: TxnId): seq<TxnId> {
    if ids == [] then []
    else if ids[0] == t then Without(ids[1..], t)
    else [ids[0]] + Without(ids[1..], t)
  }

  /** The logged inconsistency: a key in the release list that t neither writes nor reads. */
  predicate Inconsistent(locks: map<Bytes, LocksAcquired>, t: TxnId, keys: seq<Bytes>) {
    exists i :: 0 <= i < |keys| && (keys[i] !in locks || (locks[keys[i]].writer != t && t !in locks[keys[i]].readers))
  }

  /* ---------- Steps ---------- */

  predicate Committing(s: Sys, t: TxnId) {
    s.stage == Logged(t) || s.stage == Applied(t)
  }

  /** What the code can do next. Commits are serial and a finished transaction is not reused. */
  ghost predicate Enabled(s: Sys, step: Step) {
    match step
    case Begin(t) => t == s.next
    case Put(t, _, _) => t in s.txns && !Committing(s, t)
    case Rollback(t) => t in s.txns && !Committing(s, t)
    case Log(t, order) => t in s.txns && s.stage == Idle && !s.stale && Listing(order, s.txns[t].writes)
    case Apply(t) => s.stage == Logged(t) && t in s.txns && s.wal != []
    case Finish(t) => s.stage == Applied(t) && t in s.txns && !s.stale
    case FlushWrite => !s.stale && !s.stage.Logged?
    case FlushClear => s.stale
    case CompactStart(_) => s.job.NoJob? && |s.files| >= 4
    case CompactFinish(out) =>
      s.job.Job? && Sorted(out) && Elems(out) == Compact(FileSet(s.job.inputs), s.job.horizon)
    case Restart => true
  }

  /** atomicSwap: the compacted file first, then every current file that was not an input. */
  function Swap(files: seq<File>, inputs: seq<File>, c: File): seq<File> {
    [c] + Remaining(files, set i | 0 <= i < |inputs| :: inputs[i].name)
  }

  function Remaining(files: seq<File>, names: set<nat>): seq<File> {
    if files == [] then []
    else if files[0].name in names then Remaining(files[1..], names)
    else [files[0]] + Remaining(files[1..], names)
  }

  ghost function Next(s: Sys, step: Step): Sys
    requires Enabled(s, step)
  {
    match step
    case Begin(t) =>
      s.(next := t + 1, active := s.active + {t}, txns := s.txns[t := Txn(s.active + {t}, map[], [])])
    case Put(t, k, v) =>
      if LockedByOther(s, t, k) then s
      else
        var txn := s.txns[t];
        var held := k in s.locks && s.locks[k].writer == t;
        var readers := if k in s.locks then s.locks[k].readers else [];
        s.(locks := s.locks[k := LocksAcquired(t, readers)],
           txns := s.txns[t := Txn(txn.snapshot, txn.writes[k := v], if held then txn.locked else txn.locked + [k])])
    case Rollback(t) => End(s, t)
    case Log(t, order) => s.(wal := s.wal + [Record(t, order)], stage := Logged(t))
    case Apply(t) => s.(mem := PutAll(s.mem, s.wal[|s.wal| - 1].writes, t), stage := Applied(t))
    case Finish(t) => End(s, t).(stage := Idle)
    case FlushWrite =>
      s.(files := s.files + [File(s.nextFile, s.mem)], nextFile := s.nextFile + 1, mem := [], stale := true)
    case FlushClear => s.(wal := [], stale := false)
    case CompactStart(m) => s.(job := Job(m, s.files))
    case CompactFinish(out) =>
      s.(files := Swap(s.files, s.job.inputs, File(s.nextFile, out)), nextFile := s.nextFile + 1, job := NoJob)
    case Restart =>
      Sys(MaxId(s.wal) + 1, {}, map[], map[], Replay(s.wal), s.files, s.nextFile, s.wal, Idle, false, NoJob)
  }

  /** Release the locks, drop the buffer, leave the active set. */
  function End(s: Sys, t: TxnId): Sys
    requires t in s.txns
  {
    s.(locks := Release(s.locks, t, s.txns[t].locked), active := s.active - {t}, txns := s.txns - {t})
  }

  /* ---------- Reads ---------- */

  /** Transaction.Get: own buffer first, then the layered lookup through the snapshot. */
  function TxnGet(s: Sys, t: TxnId, k: Bytes): Bytes
    requires t in s.txns
  {
    if k in s.txns[t].writes then s.txns[t].writes[k]
    else StoreGet(s.mem, Runs(s.files), k, ReaderOf(s, t))
  }

  /* ---------- Conditions the code relies on but does not check ---------- */

  /** Ordered writers: t commits k only while no stored version of k is newer than t. */
  ghost predicate OrderedWrites(s: Sys, t: TxnId)
    requires t in s.txns
  {
    forall v :: v in Stored(s) && v.key in s.txns[t].writes ==> v.txn < t
  }

  /** Safe horizon: no live reader, and no reader that could begin now, loses its version. */
  ghost predicate SafeFor(s: Sys, vs: set<Version>, m: nat) {
    && (forall t :: t in s.txns ==> !Loses(vs, m, ReaderOf(s, t)))
    && !Loses(vs, m, Fresh(s))
  }

  /** Restart ids: the log's largest id is at least every id in the files. */
  ghost predicate IdsRecoverable(s: Sys) {
    forall v :: v in FileSet(s.files) ==> v.txn <= MaxId(s.wal)
  }

  ghost predicate Guarded(s: Sys, step: Step)
    requires Enabled(s, step)
  {
    match step
    case Log(t, _) => OrderedWrites(s, t)
    case CompactStart(m) => SafeFor(s, FileSet(s.files), m)
    case Restart => IdsRecoverable(s)
    case _ => true
  }

  ghost predicate Allowed(s: Sys, step: Step) {
    Enabled(s, step) && Guarded(s, step)
  }

  /* ---------- Runs of the machine ---------- */

  ghost predicate AllowedRun(s: Sys, run: seq<Step>)
    decreases |run|
  {
    run == [] || (Allowed(s, run[0]) && AllowedRun(Next(s, run[0]), run[1..]))
  }

  ghost function After(s: Sys, run: seq<Step>): Sys
    requires AllowedRun(s, run)
    decreases |run|
  {
    if run == [] then s else After(Next(s, run[0]), run[1..])
  }
}
