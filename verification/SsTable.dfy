/** The table of files on disk with its in-memory index (sstable/sstable.go,
    sstable/compaction.go, sstable/manifest.go). */
module SsTables {
  import opened Bytes
  import opened Mvcc
  import opened Layers
  import opened Compaction
  import opened SsTableFormat
  import opened SsTableFiles
  import opened SsTableScans

  datatype DiskFile = DiskFile(name: nat, bytes: Bytes)

  const COMPACTION_THRESHOLD: nat := 4

  /** Entries that one file can hold: sorted, with non-empty keys and sizes the format can express. */
  ghost predicate Storable(es: seq<Version>) {
    Sorted(es) && NonEmptyKeys(es) && AllFit(es) && |EncodeAll(es)| < TWO_32
  }

  /** The file's bytes, its in-memory index and offset, and its manifest name belong together. */
  ghost predicate Aligned(f: DiskFile, index: seq<IndexEntry>, offset: nat, name: nat, es: seq<Version>, limit: int) {
    && Storable(es) && IsBlockIndex(es, limit, index)
    && f.bytes == FileBytes(es, index) && offset == |EncodeAll(es)| && name == f.name
  }

  /** The four parallel lists agree position by position, under distinct names. */
  ghost predicate ListsAligned(files: seq<DiskFile>, blocks: seq<seq<IndexEntry>>, offsets: seq<nat>, names: seq<nat>,
                               runs: seq<seq<Version>>, limit: int, next: nat)
  {
    && |files| == |blocks| == |offsets| == |names| == |runs|
    && (forall i :: 0 <= i < |files| ==> Aligned(files[i], blocks[i], offsets[i], names[i], runs[i], limit))
    && (forall i :: 0 <= i < |files| ==> files[i].name < next)
    && (forall i, j :: 0 <= i < j < |files| ==> files[i].name != files[j].name)
  }

  lemma ListsFacts(files: seq<DiskFile>, blocks: seq<seq<IndexEntry>>, offsets: seq<nat>, names: seq<nat>,
                   runs: seq<seq<Version>>, limit: int, next: nat)
    requires ListsAligned(files, blocks, offsets, names, runs, limit, next)
    ensures |files| == |blocks| == |offsets| == |names| == |runs|
    ensures forall i :: 0 <= i < |files| ==> names[i] == files[i].name && files[i].name < next
    ensures forall i, j :: 0 <= i < j < |files| ==> files[i].name != files[j].name
  {
  }

  lemma SwapAligned(files: seq<DiskFile>, blocks: seq<seq<IndexEntry>>, offsets: seq<nat>, names: seq<nat>,
                    runs: seq<seq<Version>>, limit: int, next: nat, n: nat,
                    f: DiskFile, index: seq<IndexEntry>, offset: nat, es: seq<Version>)
    requires ListsAligned(files, blocks, offsets, names, runs, limit, next) && n <= |files|
    requires Aligned(f, index, offset, f.name, es, limit)
    requires f.name < next && forall i :: 0 <= i < |files| ==> files[i].name != f.name
    ensures ListsAligned([f] + files[n..], [index] + blocks[n..], [offset] + offsets[n..], [f.name] + names[n..],
                         [es] + runs[n..], limit, next)
  {
    hide Aligned;
    var files', blocks', offsets', names', runs' :=
      [f] + files[n..], [index] + blocks[n..], [offset] + offsets[n..], [f.name] + names[n..], [es] + runs[n..];
    forall j | 0 <= j < |files'| ensures Aligned(files'[j], blocks'[j], offsets'[j], names'[j], runs'[j], limit) {
      if j > 0 {
        var i := j - 1 + n;
        assert files'[j] == files[i] && blocks'[j] == blocks[i] && offsets'[j] == offsets[i] && names'[j] == names[i] && runs'[j] == runs[i];
      }
    }
    forall i, j | 0 <= i < j < |files'| ensures files'[i].name != files'[j].name {
      assert files'[j] == files[j - 1 + n];
      if i > 0 { assert files'[i] == files[i - 1 + n]; }
    }
  }

  lemma AppendAligned(files: seq<DiskFile>, blocks: seq<seq<IndexEntry>>, offsets: seq<nat>, names: seq<nat>,
                      runs: seq<seq<Version>>, limit: int, next: nat,
                      f: DiskFile, index: seq<IndexEntry>, offset: nat, es: seq<Version>)
    requires ListsAligned(files, blocks, offsets, names, runs, limit, next)
    requires Aligned(f, index, offset, f.name, es, limit) && f.name == next
    ensures ListsAligned(files + [f], blocks + [index], offsets + [offset], names + [f.name], runs + [es], limit, next + 1)
  {
    hide Aligned;
  }

  ghost function AllVersions(runs: seq<seq<Version>>): set<Version> {
    set i, v | 0 <= i < |runs| && v in runs[i] :: v
  }

  lemma AllVersionsFrom(runs: seq<seq<Version>>, i: nat)
    requires i < |runs|
    ensures AllVersions(runs[i..]) == Elems(runs[i]) + AllVersions(runs[i + 1..])
  {
  }

  /* ---------- What an indexed lookup reads of a file ---------- */

  /** Nothing if no block can hold the key, else everything from the chosen block on. */
  ghost function Reached(es: seq<Version>, limit: int, index: seq<IndexEntry>, key: Bytes): seq<Version> {
    if b: int, p: nat :| ChosenBlock(es, limit, index, key, b, p) then es[p..] else []
  }

  ghost function ReachedAll(runs: seq<seq<Version>>, limit: int, blocks: seq<seq<IndexEntry>>, key: Bytes): (w: seq<seq<Version>>)
    requires |runs| == |blocks|
    ensures |w| == |runs|
    ensures forall i :: 0 <= i < |runs| ==> w[i] == Reached(runs[i], limit, blocks[i], key)
  {
    seq(|runs|, i requires 0 <= i < |runs| => Reached(runs[i], limit, blocks[i], key))
  }

  lemma ReachedIs(es: seq<Version>, limit: int, index: seq<IndexEntry>, key: Bytes, b: int, p: nat)
    requires ChosenBlock(es, limit, index, key, b, p)
    ensures Reached(es, limit, index, key) == es[p..]
  {
    hide Offset, IsBlockIndex;
    forall b': int, p': nat | ChosenBlock(es, limit, index, key, b', p') ensures p' == p {
      if b < b' { LessAsymmetric(key, index[b'].key); }
      if b' < b { LessAsymmetric(key, index[b].key); }
      if p < p' { OffsetMonotone(es, p, p'); }
      if p' < p { OffsetMonotone(es, p', p); }
    }
  }

  lemma NoBlock(es: seq<Version>, limit: int, index: seq<IndexEntry>, key: Bytes)
    requires IsBlockIndex(es, limit, index) && Sorted(es)
    requires forall i :: 0 <= i < |index| ==> Less(key, index[i].key)
    ensures Reached(es, limit, index, key) == []
    ensures forall i :: 0 <= i < |es| ==> Less(key, es[i].key)
  {
    hide Offset;
    if b: int, p: nat :| ChosenBlock(es, limit, index, key, b, p) {
      LessAsymmetric(key, index[b].key);
      assert false;
    }
    var starts :| BlocksAt(es, limit, index, starts);
    forall i | 0 <= i < |es| ensures Less(key, es[i].key) {
      assert Less(key, index[0].key);
      SortedKeyOrder(es, 0, i);
      if es[0].key != es[i].key { LessTransitive(key, es[0].key, es[i].key); }
    }
  }

  /** The bytes from the chosen block to the index are the encoding of the suffix of entries. */
  lemma BlockBytes(es: seq<Version>, index: seq<IndexEntry>, p: nat)
    requires AllFit(es) && p <= |es|
    ensures Offset(es, p) <= |EncodeAll(es)| <= |FileBytes(es, index)|
    ensures var buf := FileBytes(es, index)[Offset(es, p)..|EncodeAll(es)|];
            Entries(buf, 0) == es[p..] && Stop(buf, 0) == |buf|
  {
    hide FileBytes, DecodeEntry, EncodeEntry;
    OffsetSuffix(es, p);
    var f, at := FileBytes(es, index), |EncodeAll(es)|;
    assert at <= |f| && f[..at] == EncodeAll(es) by { FilePrefix(es, index); }
    var buf := f[Offset(es, p)..at];
    assert buf == f[..at][Offset(es, p)..];
    assert buf[0..] == buf;
    EntriesEncoded(buf, 0, es[p..]);
  }

  lemma FilePrefix(es: seq<Version>, index: seq<IndexEntry>)
    ensures |EncodeAll(es)| <= |FileBytes(es, index)| && FileBytes(es, index)[..|EncodeAll(es)|] == EncodeAll(es)
  {
  }

  /** The lookup's answer for one file is the file's answer. */
  ghost predicate LookupExact(es: seq<Version>, limit: int, index: seq<IndexEntry>, key: Bytes, r: Reader) {
    LastVisible(Reached(es, limit, index, key), key, r).Some? || LastVisible(es, key, r).None?
  }

  /** Every version of the key in the file lies in the part the lookup scans. */
  ghost predicate KeyReached(es: seq<Version>, limit: int, index: seq<IndexEntry>, key: Bytes) {
    forall e :: e in es && e.key == key ==> e in Reached(es, limit, index, key)
  }

  /** The lookups of a key in a file are exact for every reader exactly if they reach all its versions. */
  lemma LookupsExact(es: seq<Version>, limit: int, index: seq<IndexEntry>, key: Bytes)
    requires IsBlockIndex(es, limit, index) && Sorted(es) && Functional(Elems(es))
    ensures (forall r :: LookupExact(es, limit, index, key, r)) <==> KeyReached(es, limit, index, key)
  {
    if KeyReached(es, limit, index, key) {
      forall r ensures LookupExact(es, limit, index, key, r) { ReachedIsExact(es, limit, index, key, r); }
    }
    if e :| e in es && e.key == key && e !in Reached(es, limit, index, key) {
      var r := Reader(e.txn, {});
      assert Candidate(key, r, e);
      if b: int, p: nat :| ChosenBlock(es, limit, index, key, b, p) {
        ReachedIs(es, limit, index, key, b, p);
        var i :| 0 <= i < |es| && es[i] == e;
        MissedByItsReader(es, p, key, i);
      }
      assert !LookupExact(es, limit, index, key, r);
    }
  }

  lemma ReachedIsExact(es: seq<Version>, limit: int, index: seq<IndexEntry>, key: Bytes, r: Reader)
    requires KeyReached(es, limit, index, key)
    ensures LookupExact(es, limit, index, key, r)
  {
    hide Reached;
    var all := LastVisible(es, key, r);
    if all.Some? { assert all.value in Reached(es, limit, index, key); }
  }

  /** A key with at most one version in a file is reached, although that version may be stored twice. */
  lemma OnceIsReached(es: seq<Version>, limit: int, index: seq<IndexEntry>, key: Bytes)
    requires IsBlockIndex(es, limit, index) && Sorted(es)
    requires forall v, w :: v in es && w in es && v.key == key && w.key == key ==> v == w
    ensures KeyReached(es, limit, index, key)
  {
    forall e | e in es && e.key == key ensures e in Reached(es, limit, index, key) {
      var b, p := BlockOf(es, limit, index, key, e);
      ReachedIs(es, limit, index, key, b, p);
      ChosenBlockHasKey(es, limit, index, key, b, p);
      var f :| f in es[p..] && f.key == key;
      assert f in es;
    }
  }

  /** The binary search chooses a block whenever the file has the key. */
  lemma BlockOf(es: seq<Version>, limit: int, index: seq<IndexEntry>, key: Bytes, e: Version) returns (b: int, p: nat)
    requires IsBlockIndex(es, limit, index) && Sorted(es) && e in es && e.key == key
    ensures ChosenBlock(es, limit, index, key, b, p)
  {
    IndexSorted(es, limit, index);
    b := LastAtMost(index, key);
    if b == -1 {
      NoBlock(es, limit, index, key);
      LessIrreflexive(key);
      assert false;
    }
    p := ChooseBlock(es, limit, index, key, b);
  }

  lemma {:induction false} LastAtMost(index: seq<IndexEntry>, key: Bytes) returns (b: int)
    requires forall i, j :: 0 <= i < j < |index| ==> AtMost(index[i].key, index[j].key)
    ensures -1 <= b < |index|
    ensures b >= 0 ==> AtMost(index[b].key, key)
    ensures forall i :: b < i < |index| ==> Less(key, index[i].key)
  {
    if index == [] {
      b := -1;
    } else {
      var n := |index| - 1;
      LessTotal(index[n].key, key);
      if AtMost(index[n].key, key) { b := n; } else { b := LastAtMost(index[..n], key); }
    }
  }

  lemma ChosenIsStart(es: seq<Version>, limit: int, index: seq<IndexEntry>, key: Bytes, starts: seq<nat>, b: int, p: nat)
    requires BlocksAt(es, limit, index, starts) && ChosenBlock(es, limit, index, key, b, p)
    ensures p == starts[b]
  {
    var q := starts[b];
    if p < q { OffsetMonotone(es, p, q); }
    if q < p { OffsetMonotone(es, q, p); }
  }

  /** Nothing of the key lies before an entry at most the key, if the two entries at that border do not both have it. */
  lemma NoneBefore(es: seq<Version>, p: nat, key: Bytes, i: nat)
    requires Sorted(es) && i < p < |es| && AtMost(es[p].key, key) && !(es[p - 1].key == key && es[p].key == key)
    ensures es[i].key != key
  {
    SortedKeyOrder(es, i, p - 1);
    SortedKeyOrder(es, p - 1, p);
    if es[p].key != key { LessAsymmetric(es[p].key, key); }
    if es[p - 1].key != key && es[p].key == key { LessAsymmetric(es[p - 1].key, key); }
  }

  /** A key whose versions do not straddle a border between two blocks is reached. */
  lemma UnstraddledIsReached(es: seq<Version>, limit: int, index: seq<IndexEntry>, key: Bytes, starts: seq<nat>)
    requires BlocksAt(es, limit, index, starts) && Sorted(es)
    requires forall j :: 0 <= j < |starts| && starts[j] > 0 ==> !(es[starts[j] - 1].key == key && es[starts[j]].key == key)
    ensures KeyReached(es, limit, index, key)
  {
    hide BlocksAt, Sorted, Reached;
    assert IsBlockIndex(es, limit, index);
    forall e | e in es && e.key == key ensures e in Reached(es, limit, index, key) {
      var b, p := BlockOf(es, limit, index, key, e);
      ReachedIs(es, limit, index, key, b, p);
      ChosenIsStart(es, limit, index, key, starts, b, p);
      BlockCount(es, limit, index, starts);
      forall i | 0 <= i < p ensures es[i].key != key { NoneBefore(es, p, key, i); }
      var i :| 0 <= i < |es| && es[i] == e;
      assert es[p..][i - p] == e;
    }
  }

  /** Where every version has its own slot that is exact: the lookups of a key reach all its versions, and
      so answer every reader right, exactly if no border between two blocks runs through them. */
  lemma StraddlingExactly(es: seq<Version>, limit: int, index: seq<IndexEntry>, key: Bytes, starts: seq<nat>)
    requires BlocksAt(es, limit, index, starts) && StrictlySorted(es)
    ensures KeyReached(es, limit, index, key)
       <==> forall j :: 0 <= j < |starts| && starts[j] > 0 ==> !(es[starts[j] - 1].key == key && es[starts[j]].key == key)
  {
    hide BlocksAt, KeyReached;
    BlockCount(es, limit, index, starts);
    SlotsApart(es);
    if forall j :: 0 <= j < |starts| && starts[j] > 0 ==> !(es[starts[j] - 1].key == key && es[starts[j]].key == key) {
      UnstraddledIsReached(es, limit, index, key, starts);
    }
    if j :| 0 <= j < |starts| && starts[j] > 0 && es[starts[j] - 1].key == key && es[starts[j]].key == key {
      StraddledIsMissed(es, limit, index, key, starts, j);
    }
  }

  lemma StraddledIsMissed(es: seq<Version>, limit: int, index: seq<IndexEntry>, key: Bytes, starts: seq<nat>, j: nat)
    requires BlocksAt(es, limit, index, starts) && StrictlySorted(es) && Sorted(es)
    requires j < |starts| && starts[j] > 0 && es[starts[j] - 1].key == key && es[starts[j]].key == key
    ensures !KeyReached(es, limit, index, key)
  {
    hide Reached;
    assert IsBlockIndex(es, limit, index);
    var q := starts[j];
    var b, p := BlockOf(es, limit, index, key, es[q]);
    ReachedIs(es, limit, index, key, b, p);
    ChosenIsStart(es, limit, index, key, starts, b, p);
    assert index[j].key == key;
    LessIrreflexive(key);
    if j < b { StartsIncrease(es, limit, index, starts, j, b); }
    assert q <= p;
    forall i | p <= i < |es| ensures es[i] != es[q - 1] { BeforeTotal(es[q - 1], es[i]); }
    assert es[q - 1] !in es[p..];
  }

  lemma BlockCount(es: seq<Version>, limit: int, index: seq<IndexEntry>, starts: seq<nat>)
    requires BlocksAt(es, limit, index, starts)
    ensures |starts| == |index| && forall j :: 0 <= j < |starts| ==> starts[j] < |es|
  {
  }

  lemma ReachedAnswer(es: seq<Version>, limit: int, index: seq<IndexEntry>, key: Bytes, r: Reader)
    requires LookupExact(es, limit, index, key, r)
    ensures LastVisible(Reached(es, limit, index, key), key, r) == LastVisible(es, key, r)
  {
    if b: int, p: nat :| ChosenBlock(es, limit, index, key, b, p) {
      ReachedIs(es, limit, index, key, b, p);
      LastVisibleSplit(es, p, key, r);
    }
  }

  lemma {:induction false} SameAnswers(a: seq<seq<Version>>, b: seq<seq<Version>>, key: Bytes, r: Reader)
    requires |a| == |b| && forall i :: 0 <= i < |a| ==> LastVisible(a[i], key, r) == LastVisible(b[i], key, r)
    ensures FilesGet(a, key, r) == FilesGet(b, key, r)
  {
    if a == [] {
    } else {
      SameAnswers(a[..|a| - 1], b[..|b| - 1], key, r);
    }
  }

  /* ---------- Compaction: merging the inputs ---------- */

  ghost function NewestFirst(runs: seq<seq<Version>>): seq<Version> {
    if runs == [] then [] else NewestFirst(runs[1..]) + runs[0]
  }

  lemma {:induction false} NewestFirstElems(runs: seq<seq<Version>>)
    ensures Elems(NewestFirst(runs)) == AllVersions(runs)
  {
    if runs == [] {
    } else {
      NewestFirstElems(runs[1..]);
      AllVersionsFrom(runs, 0);
      assert runs[0..] == runs;
    }
  }

  ghost predicate AllReadable(inputs: seq<DiskFile>) {
    forall i :: 0 <= i < |inputs| ==> FileEntries(inputs[i].bytes).Some?
  }

  ghost function RunsOf(inputs: seq<DiskFile>): (r: seq<seq<Version>>)
    requires AllReadable(inputs)
    ensures |r| == |inputs| && forall i :: 0 <= i < |inputs| ==> r[i] == FileEntries(inputs[i].bytes).value
  {
    seq(|inputs|, i requires 0 <= i < |inputs| => FileEntries(inputs[i].bytes).value)
  }

  lemma NothingMerged(m: nat)
    ensures NewestFirst([]) == [] && High([], m) == [] && LowExact(map[], Elems([]), m)
  {
  }

  lemma OneMoreRun(inputs: seq<DiskFile>, i: nat)
    requires i < |inputs| && AllReadable(inputs[i..]) && AllReadable(inputs[i + 1..])
    ensures NewestFirst(RunsOf(inputs[i..])) == NewestFirst(RunsOf(inputs[i + 1..])) + FileEntries(inputs[i].bytes).value
  {
    assert inputs[i..][1..] == inputs[i + 1..];
    assert RunsOf(inputs[i..])[1..] == RunsOf(inputs[i + 1..]);
  }

  /** buildCompactedEntries: an error exactly if some input cannot be read; otherwise the kept
      versions, each written no more often than it was read. */
  method BuildCompactedEntries(inputs: seq<DiskFile>, m: nat) returns (r: Result<seq<Version>>)
    ensures r.Err? <==> !AllReadable(inputs)
    ensures r.Ok? && Functional(AllVersions(RunsOf(inputs))) ==> Elems(r.value) == Compact(AllVersions(RunsOf(inputs)), m)
    ensures r.Ok? ==> multiset(r.value) <= multiset(NewestFirst(RunsOf(inputs)))
  {
    hide NewestFirst, High, LowExact, FileEntries;
    var low: map<Bytes, ValueTxn> := map[];
    var high: seq<Version> := [];
    NothingMerged(m);
    ghost var all: seq<Version> := [];
    var i := |inputs|;
    assert inputs[i..] == [];
    while i > 0
      invariant 0 <= i <= |inputs|
      invariant AllReadable(inputs[i..]) && all == NewestFirst(RunsOf(inputs[i..]))
      invariant high == High(all, m) && LowExact(low, Elems(all), m)
    {
      i := i - 1;
      var ok: bool;
      ghost var before := high;
      ok, low, high := MergeFile(inputs[i].bytes, m, low, high, Elems(all));
      if !ok { return Err; }
      ghost var es := FileEntries(inputs[i].bytes).value;
      HighSplit(all, es, m);
      assert Elems(all + es) == Elems(all) + Elems(es);
      OneMoreRun(inputs, i);
      all := all + es;
    }
    assert inputs[0..] == inputs;
    var out := AppendLow(high, low);
    MergedIsWithin(all, m, low, out, high);
    NewestFirstElems(RunsOf(inputs));
    HighElems(all, m);
    if Functional(Elems(all)) { MergedIsCompact(Elems(all), m, low, out, high); }
    return Ok(out);
  }

  lemma Reopens(f: Bytes, es: seq<Version>, limit: int, index: seq<IndexEntry>)
    requires Storable(es) && IsBlockIndex(es, limit, index) && f == FileBytes(es, index)
    ensures |f| >= 4
    ensures var at := FromU32(f[|f| - 4..]);
            at <= |f| - 4 && at == |EncodeAll(es)| && DecodeIndex(f[at..|f| - 4], 0) == Some(index)
  {
    hide FileBytes, DecodeIndex, Entries, Stop;
    FileRoundTrip(es, limit, index);
  }

  /** Files as the writer left them, under the names of a manifest. */
  ghost predicate WrittenFiles(disk: seq<DiskFile>, next: nat, limit: int, written: seq<seq<Version>>, index: seq<seq<IndexEntry>>) {
    && |disk| == |written| == |index|
    && (forall i :: 0 <= i < |disk| ==>
          Storable(written[i]) && IsBlockIndex(written[i], limit, index[i]) && disk[i].bytes == FileBytes(written[i], index[i]))
    && (forall i :: 0 <= i < |disk| ==> disk[i].name < next)
    && (forall i, j :: 0 <= i < j < |disk| ==> disk[i].name != disk[j].name)
  }

  /** buildIndexes: each index and offset comes back as the writer returned it. */
  method BuildIndexes(disk: seq<DiskFile>, ghost next: nat, ghost limit: int, ghost written: seq<seq<Version>>, ghost index: seq<seq<IndexEntry>>)
    returns (blocks: seq<seq<IndexEntry>>, offsets: seq<nat>, names: seq<nat>)
    requires WrittenFiles(disk, next, limit, written, index)
    ensures blocks == index && |offsets| == |names| == |disk|
    ensures forall j :: 0 <= j < |disk| ==> offsets[j] == |EncodeAll(written[j])| && names[j] == disk[j].name
  {
    hide FileBytes, DecodeIndex, EncodeAll, Storable, IsBlockIndex, FromU32;
    blocks, offsets, names := [], [], [];
    for i := 0 to |disk|
      invariant |blocks| == |offsets| == |names| == i
      invariant forall j :: 0 <= j < i ==> blocks[j] == index[j]
      invariant forall j :: 0 <= j < i ==> offsets[j] == |EncodeAll(written[j])| && names[j] == disk[j].name
    {
      var r := BuildIndexFromFile(disk[i].bytes);
      Reopens(disk[i].bytes, written[i], limit, index[i]);
      offsets := offsets + [r.value.0];
      blocks := blocks + [r.value.1];
      names := names + [disk[i].name];
    }
    assert blocks == index;
  }

  /* ---------- The class ---------- */

  lemma Lengths(files: seq<DiskFile>, blocks: seq<seq<IndexEntry>>, offsets: seq<nat>, names: seq<nat>,
                runs: seq<seq<Version>>, limit: int, next: nat)
    requires ListsAligned(files, blocks, offsets, names, runs, limit, next)
    ensures |files| == |blocks| == |offsets| == |names| == |runs|
  {
  }

  lemma Appended<T>(s: seq<T>, x: T)
    ensures |s + [x]| == |s| + 1 && s <= s + [x] && (s + [x])[|s|] == x && (s + [x])[..|s|] == s
  {
  }

  lemma StillPrefix<T>(a: seq<T>, b: seq<T>, c: seq<T>)
    ensures a <= b ==> a <= b + c
  {
  }

  class SsTable {
    var files: seq<DiskFile>
    var indexBlocks: seq<seq<IndexEntry>>
    var indexOffsets: seq<nat>
    var manifestNames: seq<nat>
    var nextFileId: nat
    var compacting: bool
    const blockLength: int
    ghost var runs: seq<seq<Version>>   // the entries of each file
    ghost var inputs: seq<DiskFile>     // what a compaction in progress has taken

    ghost predicate Valid()
      reads this
    {
      && ListsAligned(files, indexBlocks, indexOffsets, manifestNames, runs, blockLength, nextFileId)
      && (compacting ==> inputs <= files)
    }

    constructor (limit: int)
      ensures Valid() && runs == [] && !compacting && blockLength == limit
    {
      files, indexBlocks, indexOffsets, manifestNames := [], [], [], [];
      nextFileId, compacting, blockLength := 0, false, limit;
      runs, inputs := [], [];
    }

    /** NewSsTable on the files a manifest lists: every index is rebuilt from its file, and the
        table reads exactly as it did when the files were written. */
    constructor Reopen(disk: seq<DiskFile>, next: nat, limit: int, ghost written: seq<seq<Version>>, ghost index: seq<seq<IndexEntry>>)
      requires WrittenFiles(disk, next, limit, written, index)
      ensures Valid() && files == disk && runs == written && indexBlocks == index && !compacting && blockLength == limit
      ensures nextFileId == next
    {
      var blocks, offsets, names := BuildIndexes(disk, next, limit, written, index);
      assert ListsAligned(disk, blocks, offsets, names, written, limit, next) by { hide EncodeAll, FileBytes, IsBlockIndex, Storable; }
      files, indexBlocks, indexOffsets, manifestNames := disk, blocks, offsets, names;
      nextFileId, compacting, blockLength := next, false, limit;
      runs, inputs := written, [];
    }

    /** Write: a flush appends one file to every parallel list, and keeps a running compaction's
        inputs the oldest files. */
    method Write(es: seq<Version>)
      requires Valid() && Storable(es)
      modifies this
      ensures Valid() && runs == old(runs) + [es]
      ensures |files| == |old(files)| + 1 && old(files) <= files && files[|old(files)|].name == old(nextFileId)
      ensures |indexBlocks| == |files| && indexBlocks[..|old(files)|] == old(indexBlocks) && nextFileId == old(nextFileId) + 1
      ensures compacting == old(compacting) && inputs == old(inputs)
    {
      hide FileBytes, EncodeAll, IsBlockIndex, ListsAligned, NonEmptyKeys, AllFit, Sorted, Aligned;
      Lengths(files, indexBlocks, indexOffsets, manifestNames, runs, blockLength, nextFileId);
      var name := nextFileId;
      nextFileId := nextFileId + 1;
      var bytes, offset, index := WriteToFile(es, blockLength);
      IsAligned(DiskFile(name, bytes), index, es, blockLength);
      AppendAligned(files, indexBlocks, indexOffsets, manifestNames, runs, blockLength, name, DiskFile(name, bytes), index, offset, es);
      Appended(files, DiskFile(name, bytes));
      Appended(indexBlocks, index);
      StillPrefix(inputs, files, [DiskFile(name, bytes)]);
      files := files + [DiskFile(name, bytes)];
      indexBlocks := indexBlocks + [index];
      manifestNames := manifestNames + [name];
      indexOffsets := indexOffsets + [offset];
      runs := runs + [es];
    }

    /** Get: newest file first, one indexed lookup per file, an empty answer means look on. The
        answer is the layered read of the whole files whenever each lookup is exact for its file. */
    method Get(key: Bytes, r: Reader) returns (value: Result<Bytes>)
      requires Valid()
      ensures value == Ok(FilesGet(ReachedAll(runs, blockLength, indexBlocks, key), key, r))
      ensures (forall i :: 0 <= i < |runs| ==> LookupExact(runs[i], blockLength, indexBlocks[i], key, r)) ==>
                value == Ok(FilesGet(runs, key, r))
    {
      hide Reached, LookupExact, LastVisible, Aligned;
      ghost var reached := ReachedAll(runs, blockLength, indexBlocks, key);
      if forall i :: 0 <= i < |runs| ==> LookupExact(runs[i], blockLength, indexBlocks[i], key, r) {
        forall i | 0 <= i < |runs| ensures LastVisible(reached[i], key, r) == LastVisible(runs[i], key, r) {
          ReachedAnswer(runs[i], blockLength, indexBlocks[i], key, r);
        }
        SameAnswers(reached, runs, key, r);
      }
      assert reached[..|files|] == reached;
      var i := |files|;
      while i > 0
        invariant 0 <= i <= |files|
        invariant FilesGet(reached, key, r) == FilesGet(reached[..i], key, r)
      {
        i := i - 1;
        assert reached[..i + 1][..i] == reached[..i];
        var found := GetFromFile(i, key, r);
        if found != Ok([]) {
          return found;
        }
      }
      value := Ok([]);
    }

    /** The loop body of Get. */
    method GetFromFile(i: nat, key: Bytes, r: Reader) returns (value: Result<Bytes>)
      requires Valid() && i < |files|
      ensures value == Ok(ValueOf(LastVisible(Reached(runs[i], blockLength, indexBlocks[i], key), key, r)))
    {
      hide FileBytes, Reached, Entries, Stop, Offset, LastVisible;
      ghost var es := runs[i];
      assert Aligned(files[i], indexBlocks[i], indexOffsets[i], manifestNames[i], es, blockLength);
      var index := indexBlocks[i];
      IndexSorted(es, blockLength, index);
      var b := LowerBound(key, index);
      if b == -1 {
        NoBlock(es, blockLength, index, key);
        NothingIn(key, r);
        return Ok([]);
      }
      ghost var p := ChooseBlock(es, blockLength, index, key, b);
      ReachedIs(es, blockLength, index, key, b, p);
      BlockBytes(es, index, p);
      var buf := files[i].bytes[index[b].offset..indexOffsets[i]];
      value := GetFromBlock(buf, key, r);
      SuffixSorted(es, p);
      StopIsHarmless(es[p..], key, r);
    }

    /** PrefixScan: over files in any id order, precisely the keys with the prefix that have a
        visible version, each with its newest one, although whole files are skipped and scans
        start late and stop early. The one key outside this promise is the prefix itself. */
    method PrefixScan(prefix: Bytes, r: Reader) returns (found: Result<map<Bytes, ValueTxn>>)
      requires Valid()
      ensures found.Ok? && Sound(AllVersions(runs), prefix, r, found.value)
      ensures forall k :: HasPrefix(k, prefix) && k != prefix ==> KeyExact(AllVersions(runs), k, r, found.value)
    {
      var table: map<Bytes, ValueTxn> := map[];
      var i := |files|;
      assert AllVersions(runs[i..]) == {};
      while i > 0
        invariant 0 <= i <= |files|
        invariant Sound(AllVersions(runs[i..]), prefix, r, table)
        invariant forall k :: HasPrefix(k, prefix) && k != prefix ==> KeyExact(AllVersions(runs[i..]), k, r, table)
      {
        i := i - 1;
        AllVersionsFrom(runs, i);
        ghost var vs := AllVersions(runs[i + 1..]);
        assert vs + Elems(runs[i]) == AllVersions(runs[i..]);
        var step := ScanFile(i, prefix, table, r, vs);
        table := step.value;
      }
      assert runs[0..] == runs;
      return Ok(table);
    }

    /** The loop body of PrefixScan. */
    method ScanFile(i: nat, prefix: Bytes, table: map<Bytes, ValueTxn>, r: Reader, ghost vs: set<Version>)
      returns (found: Result<map<Bytes, ValueTxn>>)
      requires Valid() && i < |files|
      requires Sound(vs, prefix, r, table)
      requires forall k :: HasPrefix(k, prefix) && k != prefix ==> KeyExact(vs, k, r, table)
      ensures found.Ok? && Sound(vs + Elems(runs[i]), prefix, r, found.value)
      ensures forall k :: HasPrefix(k, prefix) && k != prefix ==> KeyExact(vs + Elems(runs[i]), k, r, found.value)
    {
      hide FileBytes, Entries, Stop, AbsorbAll, KeyExact, FirstPast, Sound;
      ghost var es := runs[i];
      SoundGrows(vs, vs + Elems(es), prefix, r, table);
      assert Aligned(files[i], indexBlocks[i], indexOffsets[i], manifestNames[i], es, blockLength);
      var index := indexBlocks[i];
      IndexSorted(es, blockLength, index);
      var b := LowerBound(prefix, index);
      ghost var p: nat := 0;
      if b == -1 {
        NoBlock(es, blockLength, index, prefix);
        if |index| == 0 || !HasPrefix(index[0].key, prefix) {
          SkippedHere(es, blockLength, index, prefix, vs, table, r);
          return Ok(table);
        }
        b := 0;
        FirstBlock(es, blockLength, index);
      } else {
        p := ChooseBlock(es, blockLength, index, prefix, b);
        BlockBelow(es, blockLength, index, prefix, b, p);
      }
      BlockBytes(es, index, p);
      var buf := files[i].bytes[index[b].offset..indexOffsets[i]];
      found := ScanBlocks(buf, prefix, table, r);
      assert found == Ok(AbsorbAll(table, es[p..][..FirstPast(es[p..], prefix)], prefix, r));
      WindowScanned(es, p, prefix, r, table, vs);
    }

    method ShouldRunCompaction() returns (run: bool)
      ensures run <==> !compacting && |files| >= 4
    {
      run := !compacting && |files| >= COMPACTION_THRESHOLD;
    }

    /** RunCompaction, first half: mark it and take the list of files. */
    method StartCompaction() returns (taken: seq<DiskFile>)
      requires Valid()
      modifies this`compacting, this`inputs
      ensures Valid() && compacting && taken == files == inputs
    {
      compacting := true;
      taken := files;
      inputs := files;
    }

    /** RunCompaction, second half, after any number of flushes: the inputs are replaced by one
        file that holds exactly what compaction keeps, and the newer files follow it unchanged
        and in order, aligned with their indexes, offsets and manifest names. */
    method FinishCompaction(taken: seq<DiskFile>, m: nat) returns (ghost out: seq<Version>)
      requires Valid() && compacting && taken == inputs
      requires Functional(AllVersions(runs[..|taken|]))
      requires |EncodeAll(NewestFirst(runs[..|taken|]))| < TWO_32
      modifies this
      ensures inputs == []
      ensures Valid() && !compacting
      ensures Sorted(out) && Elems(out) == Compact(AllVersions(old(runs)[..|taken|]), m)
      ensures runs == [out] + old(runs)[|taken|..]
      ensures |files| == |runs| && files[1..] == old(files)[|taken|..] && files[0].name == old(nextFileId)
      ensures nextFileId == old(nextFileId) + 1
    {
      hide Aligned, EncodeAll, NewestFirst, Functional, Compact, SortEntries, Sorted, IsBlockIndex, FileBytes, AllVersions;
      InputsReadable(taken);
      var merged := BuildCompactedEntries(taken, m);
      var sorted := SortEntries(merged.value);
      OutputStorable(merged.value, taken);
      var name := nextFileId;
      nextFileId := nextFileId + 1;
      var bytes, offset, index := WriteToFile(sorted, blockLength);
      assert Aligned(DiskFile(name, bytes), index, offset, name, sorted, blockLength) by { IsAligned(DiskFile(name, bytes), index, sorted, blockLength); }
      out := sorted;
      AtomicSwap(DiskFile(name, bytes), taken, index, offset, out);
      compacting := false;
      inputs := [];
    }

    ghost method InputsReadable(taken: seq<DiskFile>)
      requires Valid() && taken <= files
      ensures AllReadable(taken) && RunsOf(taken) == runs[..|taken|]
    {
      hide FileBytes, DecodeIndex, Entries, Stop;
      forall i | 0 <= i < |taken| ensures FileEntries(taken[i].bytes) == Some(runs[i]) {
        assert Aligned(files[i], indexBlocks[i], indexOffsets[i], manifestNames[i], runs[i], blockLength);
        FileRoundTrip(runs[i], blockLength, indexBlocks[i]);
      }
    }

    ghost method OutputStorable(merged: seq<Version>, taken: seq<DiskFile>)
      requires Valid() && taken <= files
      requires multiset(merged) <= multiset(NewestFirst(runs[..|taken|]))
      requires |EncodeAll(NewestFirst(runs[..|taken|]))| < TWO_32
      ensures Storable(SortEntries(merged)) && Elems(SortEntries(merged)) == Elems(merged)
    {
      hide SortEntries, NewestFirst, EncodeAll, IsBlockIndex, FileBytes;
      SortEntriesIsSorted(merged);
      var all := NewestFirst(runs[..|taken|]);
      PartIsSmaller(SortEntries(merged), all);
      NewestFirstElems(runs[..|taken|]);
      var out := SortEntries(merged);
      forall j | 0 <= j < |out| ensures out[j].key != [] && Fits(out[j]) {
        assert out[j] in multiset(out);
        assert out[j] in multiset(all);
        assert out[j] in Elems(all);
        var i :| 0 <= i < |runs[..|taken|]| && out[j] in runs[..|taken|][i];
        assert Aligned(files[i], indexBlocks[i], indexOffsets[i], manifestNames[i], runs[i], blockLength);
        assert out[j] in runs[i];
      }
    }

    /** atomicSwap: compacted file first, then every current file whose name is not among the
        inputs, rebuilding all parallel lists. */
    method AtomicSwap(compacted: DiskFile, taken: seq<DiskFile>, index: seq<IndexEntry>, offset: nat, ghost es: seq<Version>)
      requires Valid() && compacting && taken == inputs
      requires Aligned(compacted, index, offset, compacted.name, es, blockLength)
      requires compacted.name < nextFileId && forall i :: 0 <= i < |files| ==> files[i].name != compacted.name
      modifies this`files, this`indexBlocks, this`indexOffsets, this`manifestNames, this`runs, this`compacting, this`inputs
      ensures Valid() && !compacting
      ensures files == [compacted] + old(files)[|taken|..]
      ensures indexBlocks == [index] + old(indexBlocks)[|taken|..]
      ensures indexOffsets == [offset] + old(indexOffsets)[|taken|..]
      ensures manifestNames == [compacted.name] + old(manifestNames)[|taken|..]
      ensures runs == [es] + old(runs)[|taken|..]
    {
      hide ListsAligned, Aligned;
      ghost var n := |taken|;
      ListsFacts(files, indexBlocks, indexOffsets, manifestNames, runs, blockLength, nextFileId);
      var newFiles, newBlocks, newOffsets, newNames := NotAmong(files, indexBlocks, indexOffsets, manifestNames, taken);
      SwapAligned(files, indexBlocks, indexOffsets, manifestNames, runs, blockLength, nextFileId, n, compacted, index, offset, es);
      files, manifestNames := [compacted] + newFiles, [compacted.name] + newNames;
      indexBlocks, indexOffsets := [index] + newBlocks, [offset] + newOffsets;
      runs := [es] + runs[n..];
      compacting, inputs := false, [];
    }
  }

  /** The elements from n on, of the first i. */
  function Newer<T>(s: seq<T>, n: nat, i: nat): seq<T>
    requires i <= |s|
  {
    if i <= n then [] else s[n..i]
  }

  lemma NewerStep<T>(s: seq<T>, n: nat, i: nat)
    requires i < |s| && n <= |s|
    ensures Newer(s, n, i + 1) == if i < n then Newer(s, n, i) else Newer(s, n, i) + [s[i]]
  {
  }

  lemma NewerAll<T>(s: seq<T>, n: nat)
    requires n <= |s|
    ensures Newer(s, n, 0) == [] && Newer(s, n, |s|) == s[n..]
  {
  }

  /** The loop of atomicSwap. When the inputs are the oldest files, what is not among them by
      name is exactly the newer files, in order, in all four lists. */
  method NotAmong(files: seq<DiskFile>, blocks: seq<seq<IndexEntry>>, offsets: seq<nat>, names: seq<nat>, taken: seq<DiskFile>)
    returns (f: seq<DiskFile>, b: seq<seq<IndexEntry>>, o: seq<nat>, m: seq<nat>)
    requires |files| == |blocks| == |offsets| == |names|
    requires forall i :: 0 <= i < |files| ==> names[i] == files[i].name
    requires forall i, j :: 0 <= i < j < |files| ==> files[i].name != files[j].name
    requires taken <= files
    ensures f == files[|taken|..] && b == blocks[|taken|..] && o == offsets[|taken|..] && m == names[|taken|..]
  {
    var oldNames := set x | x in taken :: x.name;
    forall i | 0 <= i < |files| ensures names[i] in oldNames <==> i < |taken| {
      if i < |taken| { assert taken[i] == files[i]; }
    }
    hide Newer;
    f, b, o, m := [], [], [], [];
    ghost var n := |taken|;
    NewerAll(files, n); NewerAll(blocks, n); NewerAll(offsets, n); NewerAll(names, n);
    for i := 0 to |files|
      invariant f == Newer(files, n, i) && b == Newer(blocks, n, i)
      invariant o == Newer(offsets, n, i) && m == Newer(names, n, i)
    {
      NewerStep(files, n, i); NewerStep(blocks, n, i); NewerStep(offsets, n, i); NewerStep(names, n, i);
      if files[i].name !in oldNames {
        f := f + [files[i]];
        b := b + [blocks[i]];
        o := o + [offsets[i]];
        m := m + [files[i].name];
      }
    }
  }

  lemma IsAligned(f: DiskFile, index: seq<IndexEntry>, es: seq<Version>, limit: int)
    requires Storable(es) && IsBlockIndex(es, limit, index) && f.bytes == FileBytes(es, index)
    ensures Aligned(f, index, |EncodeAll(es)|, f.name, es, limit)
  {
  }

  lemma NothingIn(key: Bytes, r: Reader)
    ensures LastVisible([], key, r).None?
  {
  }

  lemma SuffixSorted(es: seq<Version>, p: nat)
    requires Sorted(es) && p <= |es|
    ensures Sorted(es[p..])
  {
  }

  /** The entries between the chosen block and the early exit are all the scan needs. */
  lemma WindowScanned(es: seq<Version>, p: nat, prefix: Bytes, r: Reader, table: map<Bytes, ValueTxn>, vs: set<Version>)
    requires Sorted(es) && p <= |es| && forall j :: 0 <= j < p ==> AtMost(es[j].key, prefix)
    requires Sound(vs + Elems(es), prefix, r, table)
    requires forall k :: HasPrefix(k, prefix) && k != prefix ==> KeyExact(vs, k, r, table)
    ensures var m := AbsorbAll(table, es[p..][..FirstPast(es[p..], prefix)], prefix, r);
            && Sound(vs + Elems(es), prefix, r, m)
            && forall k :: HasPrefix(k, prefix) && k != prefix ==> KeyExact(vs + Elems(es), k, r, m)
  {
    hide AbsorbAll, KeyExact, FirstPast, Sound, Sorted;
    var window := es[p..][..FirstPast(es[p..], prefix)];
    assert forall e :: e in window ==> e in es;
    AbsorbSound(table, window, prefix, r, vs + Elems(es));
    forall k | HasPrefix(k, prefix) && k != prefix ensures KeyExact(vs + Elems(es), k, r, AbsorbAll(table, window, prefix, r)) {
      WindowElems(es, p, prefix, r, table, vs, k);
    }
  }

  lemma FirstBlock(es: seq<Version>, limit: int, index: seq<IndexEntry>)
    requires IsBlockIndex(es, limit, index) && |index| > 0
    ensures es != [] && index[0] == IndexEntry(es[0].key, Offset(es, 0))
  {
  }

  lemma BlockBelow(es: seq<Version>, limit: int, index: seq<IndexEntry>, prefix: Bytes, b: int, p: nat)
    requires ChosenBlock(es, limit, index, prefix, b, p)
    ensures forall j :: 0 <= j < p ==> AtMost(es[j].key, prefix)
    ensures p <= |es| && index[b].offset == Offset(es, p)
  {
    forall j | 0 <= j < p ensures AtMost(es[j].key, prefix) {
      if es[j].key != es[p].key && es[p].key != prefix { LessTransitive(es[j].key, es[p].key, prefix); }
    }
  }

  lemma SkippedHere(es: seq<Version>, limit: int, index: seq<IndexEntry>, prefix: Bytes, vs: set<Version>,
                    table: map<Bytes, ValueTxn>, r: Reader)
    requires IsBlockIndex(es, limit, index) && Sorted(es)
    requires forall i :: 0 <= i < |es| ==> Less(prefix, es[i].key)
    requires |index| == 0 || !HasPrefix(index[0].key, prefix)
    requires forall k :: HasPrefix(k, prefix) && k != prefix ==> KeyExact(vs, k, r, table)
    ensures forall k :: HasPrefix(k, prefix) && k != prefix ==> KeyExact(vs + Elems(es), k, r, table)
  {
    if |index| == 0 {
      var starts :| BlocksAt(es, limit, index, starts);
    } else {
      FirstBlock(es, limit, index);
    }
    SkippedFile(es, prefix);
    forall k | HasPrefix(k, prefix) && k != prefix ensures KeyExact(vs + Elems(es), k, r, table) {
      SameVersionsOfKey(vs, vs + Elems(es), k, r, table);
    }
  }
}
