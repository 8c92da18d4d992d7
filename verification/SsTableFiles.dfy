/** Writing and reading one SSTable file (sstable/sstable.go). */
module SsTableFiles {
  import opened Bytes
  import opened Mvcc
  import opened Layers
  import opened SsTableFormat

  /* ---------- Writing ---------- */

  lemma {:induction false} OffsetMonotone(es: seq<Version>, a: nat, b: nat)
    requires a <= b <= |es|
    ensures Offset(es, a) <= Offset(es, b)
    ensures a < b ==> Offset(es, a) < Offset(es, b)
  {
    if a < b {
      OffsetStep(es, b - 1);
      OffsetMonotone(es, a, b - 1);
    }
  }

  /** Every block written so far is complete; the open block runs from entry `from` to n. */
  ghost predicate ClosedBlocks(es: seq<Version>, limit: int, index: seq<IndexEntry>, starts: seq<nat>, from: nat) {
    && |starts| == |index|
    && (starts == [] ==> from == 0)
    && (starts != [] ==> starts[0] == 0 && FullBlock(es, limit, starts[|starts| - 1], from))
    && (forall j :: 0 <= j < |starts| ==> starts[j] < |es|)
    && (forall j :: 0 <= j < |starts| ==> index[j] == IndexEntry(es[starts[j]].key, Offset(es, starts[j])))
    && (forall j :: 0 <= j < |starts| - 1 ==> FullBlock(es, limit, starts[j], starts[j + 1]))
  }

  lemma CloseBlock(es: seq<Version>, limit: int, index: seq<IndexEntry>, starts: seq<nat>, from: nat, to: nat)
    requires ClosedBlocks(es, limit, index, starts, from) && FullBlock(es, limit, from, to)
    ensures ClosedBlocks(es, limit, index + [IndexEntry(es[from].key, Offset(es, from))], starts + [from], to)
  {
  }

  lemma LastBlock(es: seq<Version>, limit: int, index: seq<IndexEntry>, starts: seq<nat>, from: nat)
    requires ClosedBlocks(es, limit, index, starts, from) && from < |es|
    requires Offset(es, |es|) - Offset(es, from) <= limit
    ensures IsBlockIndex(es, limit, index + [IndexEntry(es[from].key, Offset(es, from))])
  {
    hide EncodeAll, EncodeEntry;
    OffsetMonotone(es, |es| - 1, |es|);
    assert BlocksAt(es, limit, index + [IndexEntry(es[from].key, Offset(es, from))], starts + [from]);
  }

  lemma NoOpenBlock(es: seq<Version>, limit: int, index: seq<IndexEntry>, starts: seq<nat>)
    requires ClosedBlocks(es, limit, index, starts, |es|)
    ensures IsBlockIndex(es, limit, index)
  {
    assert BlocksAt(es, limit, index, starts);
  }

  lemma AppendEntry(es: seq<Version>, n: nat, data: Bytes, block: Bytes)
    requires n < |es| && data + block == EncodeAll(es[..n])
    ensures data + (block + EncodeEntry(es[n])) == EncodeAll(es[..n + 1])
    ensures Offset(es, n + 1) == Offset(es, n) + |EncodeEntry(es[n])|
  {
    assert es[..n + 1][..n] == es[..n];
    assert (data + block) + EncodeEntry(es[n]) == data + (block + EncodeEntry(es[n]));
  }

  /** The writer after n entries, with the open block starting at entry `from`. */
  ghost predicate Writing(es: seq<Version>, limit: int, n: nat, starts: seq<nat>, from: nat, data: Bytes,
                          index: seq<IndexEntry>, blockBuf: Bytes, firstKey: Bytes)
  {
    && from <= n <= |es|
    && data + blockBuf == EncodeAll(es[..n])
    && |data| == Offset(es, from)
    && firstKey == (if from < n then es[from].key else [])
    && (from < n ==> |blockBuf| <= limit)
    && ClosedBlocks(es, limit, index, starts, from)
  }

  lemma WritingStarts(es: seq<Version>, limit: int)
    ensures Writing(es, limit, 0, [], 0, [], [], [], [])
  {
  }

  lemma WritingGrows(es: seq<Version>, limit: int, n: nat, starts: seq<nat>, from: nat, data: Bytes,
                     index: seq<IndexEntry>, blockBuf: Bytes, firstKey: Bytes)
    requires Writing(es, limit, n, starts, from, data, index, blockBuf, firstKey) && n < |es|
    requires |blockBuf + EncodeEntry(es[n])| <= limit
    ensures Writing(es, limit, n + 1, starts, from, data, index, blockBuf + EncodeEntry(es[n]), es[from].key)
  {
    AppendEntry(es, n, data, blockBuf);
  }

  lemma WritingCloses(es: seq<Version>, limit: int, n: nat, starts: seq<nat>, from: nat, data: Bytes,
                      index: seq<IndexEntry>, blockBuf: Bytes, firstKey: Bytes)
    requires Writing(es, limit, n, starts, from, data, index, blockBuf, firstKey) && n < |es|
    requires |blockBuf + EncodeEntry(es[n])| > limit
    ensures Writing(es, limit, n + 1, starts + [from], n + 1, data + (blockBuf + EncodeEntry(es[n])),
                    index + [IndexEntry(es[from].key, |data|)], [], [])
  {
    var block := blockBuf + EncodeEntry(es[n]);
    AppendEntry(es, n, data, blockBuf);
    assert FullBlock(es, limit, from, n + 1);
    CloseBlock(es, limit, index, starts, from, n + 1);
    assert data + block + [] == data + block;
  }

  /** With non-empty keys, an empty first key means that no block is open. */
  lemma WritingKey(es: seq<Version>, limit: int, n: nat, starts: seq<nat>, from: nat, data: Bytes,
                   index: seq<IndexEntry>, blockBuf: Bytes, firstKey: Bytes)
    requires Writing(es, limit, n, starts, from, data, index, blockBuf, firstKey) && NonEmptyKeys(es)
    ensures from <= n
    ensures firstKey == [] <==> from == n
    ensures n < |es| ==> (if firstKey == [] then es[n].key else firstKey) == es[from].key
  {
  }

  lemma WritingDone(es: seq<Version>, limit: int, starts: seq<nat>, from: nat, data: Bytes,
                    index: seq<IndexEntry>, blockBuf: Bytes, firstKey: Bytes)
    requires Writing(es, limit, |es|, starts, from, data, index, blockBuf, firstKey) && NonEmptyKeys(es)
    ensures data + blockBuf == EncodeAll(es)
    ensures firstKey != [] ==> IsBlockIndex(es, limit, index + [IndexEntry(firstKey, |data|)])
    ensures firstKey == [] ==> IsBlockIndex(es, limit, index) && blockBuf == []
  {
    hide ClosedBlocks, IsBlockIndex, EncodeEntry;
    assert es[..|es|] == es;
    if from < |es| { LastBlock(es, limit, index, starts, from); } else { NoOpenBlock(es, limit, index, starts); }
  }

  /** writeDataBlocks: the data is the plain concatenation of the entries, and the index cuts
      it into blocks that each just exceed the block length. */
  method WriteDataBlocks(es: seq<Version>, limit: int) returns (data: Bytes, offset: nat, index: seq<IndexEntry>)
    requires NonEmptyKeys(es)
    ensures data == EncodeAll(es) && offset == |data|
    ensures IsBlockIndex(es, limit, index)
  {
    hide EncodeEntry, Writing, EncodeAll, IsBlockIndex;
    data, offset, index := [], 0, [];
    WritingStarts(es, limit);
    var blockLength, blockStartOffset := 0, 0;
    var blockFirstKey: Bytes := [];
    var blockBuf: Bytes := [];
    ghost var starts: seq<nat> := [];
    ghost var from: nat := 0;
    for n := 0 to |es|
      invariant Writing(es, limit, n, starts, from, data, index, blockBuf, blockFirstKey)
      invariant blockStartOffset == |data| && blockLength == |blockBuf| && offset == |data| + |blockBuf|
    {
      WritingKey(es, limit, n, starts, from, data, index, blockBuf, blockFirstKey);
      var entryBuf := EncodeEntry(es[n]);
      offset := offset + |entryBuf|;
      blockLength := blockLength + |entryBuf|;
      if blockLength > limit {
        WritingCloses(es, limit, n, starts, from, data, index, blockBuf, blockFirstKey);
      } else {
        WritingGrows(es, limit, n, starts, from, data, index, blockBuf, blockFirstKey);
      }
      if blockFirstKey == [] {
        blockFirstKey := es[n].key;
      }
      blockBuf := blockBuf + entryBuf;
      if blockLength > limit {
        index := index + [IndexEntry(blockFirstKey, blockStartOffset)];
        data := data + blockBuf;
        blockStartOffset := offset;
        blockFirstKey := [];
        blockLength := 0;
        blockBuf := [];
        starts, from := starts + [from], n + 1;
      }
    }
    WritingDone(es, limit, starts, from, data, index, blockBuf, blockFirstKey);
    if blockFirstKey != [] {
      index := index + [IndexEntry(blockFirstKey, blockStartOffset)];
      data := data + blockBuf;
    } else {
      assert data + [] == data;
    }
  }

  method WriteIndexBlock(index: seq<IndexEntry>) returns (buf: Bytes)
    ensures buf == EncodeIndex(index)
  {
    buf := [];
    assert index[..0] == [];
    for n := 0 to |index|
      invariant buf == EncodeIndex(index[..n])
    {
      assert index[..n + 1][..n] == index[..n];
      buf := buf + (Str(index[n].key) + U32(index[n].offset));
    }
    assert index[..|index|] == index;
  }

  /** writeToFile: data blocks, index block, footer. */
  method WriteToFile(es: seq<Version>, limit: int) returns (file: Bytes, offset: nat, index: seq<IndexEntry>)
    requires NonEmptyKeys(es)
    ensures file == FileBytes(es, index) && offset == |EncodeAll(es)|
    ensures IsBlockIndex(es, limit, index)
  {
    var data: Bytes;
    data, offset, index := WriteDataBlocks(es, limit);
    var indexBuf := WriteIndexBlock(index);
    file := data + indexBuf + U32(offset);
  }

  /* ---------- Reopening ---------- */

  lemma BlockIndexFits(es: seq<Version>, limit: int, index: seq<IndexEntry>)
    requires IsBlockIndex(es, limit, index) && AllFit(es) && |EncodeAll(es)| < TWO_32
    ensures IndexFits(index)
  {
    var starts :| BlocksAt(es, limit, index, starts);
    forall j | 0 <= j < |index| ensures |index[j].key| < TWO_32 && index[j].offset < TWO_32 {
      OffsetMonotone(es, starts[j], |es|);
      assert es[..|es|] == es;
      assert Fits(es[starts[j]]);
    }
  }

  /** buildIndexFromFile on any bytes: the index the footer points at, or an error. */
  method BuildIndexFromFile(file: Bytes) returns (r: Result<(nat, seq<IndexEntry>)>)
    ensures |file| < 4 ==> r == Err
    ensures |file| >= 4 ==>
              var at := FromU32(file[|file| - 4..]);
              if at > |file| - 4 then r == Err
              else match DecodeIndex(file[at..|file| - 4], 0)
                   case None => r == Err
                   case Some(index) => r == Ok((at, index))
  {
    hide FromU32;
    if |file| < 4 { return Err; }
    var at := FromU32(file[|file| - 4..]);
    if at > |file| - 4 { return Err; }
    var buf := file[at..|file| - 4];
    var index: seq<IndexEntry> := [];
    var i := 0;
    assert DecodeIndex(buf, 0).Some? ==> [] + DecodeIndex(buf, 0).value == DecodeIndex(buf, 0).value;
    while i < |buf|
      invariant i <= |buf|
      invariant DecodeIndex(buf, 0) ==
                match DecodeIndex(buf, i)
                case None => None
                case Some(rest) => Some(index + rest)
    {
      if i + 4 >= |buf| { return Err; }
      var n := FromU32(buf[i..i + 4]);
      if i + 8 + n > |buf| { return Err; }
      var key := buf[i + 4..i + 4 + n];
      var offset := FromU32(buf[i + 4 + n..i + 8 + n]);
      ghost var rest := DecodeIndex(buf, i + 8 + n);
      assert rest.Some? ==> index + ([IndexEntry(key, offset)] + rest.value) == (index + [IndexEntry(key, offset)]) + rest.value;
      index := index + [IndexEntry(key, offset)];
      i := i + 8 + n;
    }
    assert index + [] == index;
    return Ok((at, index));
  }

  /** Restart reads the same table: reopening a written file yields the index and offset the
      writer returned, and the data decodes to the entries that were written. */
  lemma FileRoundTrip(es: seq<Version>, limit: int, index: seq<IndexEntry>)
    requires IsBlockIndex(es, limit, index) && AllFit(es) && |EncodeAll(es)| < TWO_32
    ensures var f := FileBytes(es, index);
            && |f| >= 4
            && var at := FromU32(f[|f| - 4..]);
               && at <= |f| - 4
               && at == |EncodeAll(es)|
               && DecodeIndex(f[at..|f| - 4], 0) == Some(index)
               && Entries(f[..at], 0) == es && Stop(f[..at], 0) == at
  {
    var f := FileBytes(es, index);
    FooterRoundTrip(es, index);
    BlockIndexFits(es, limit, index);
    var at := |EncodeAll(es)|;
    var buf := f[at..|f| - 4];
    assert buf[0..] == buf;
    IndexRoundTrip(buf, 0, index);
    assert f[..at][0..] == f[..at];
    EntriesEncoded(f[..at], 0, es);
  }

  /** Every index offset is the first byte of an entry whose key is the index key. */
  lemma IndexPointsAtEntries(es: seq<Version>, limit: int, index: seq<IndexEntry>, j: nat)
    requires IsBlockIndex(es, limit, index) && AllFit(es) && j < |index|
    ensures index[j].offset <= |EncodeAll(es)|
    ensures var e := DecodeEntry(EncodeAll(es), index[j].offset);
            e.Some? && e.value.key == index[j].key
  {
    var starts :| BlocksAt(es, limit, index, starts);
    OffsetSuffix(es, starts[j]);
    var _ := HeadDecodes(EncodeAll(es), index[j].offset, es[starts[j]..]);
  }

  /* ---------- Binary search in the index ---------- */

  ghost predicate SortedKeys(index: seq<IndexEntry>) {
    forall i, j :: 0 <= i < j < |index| ==> AtMost(index[i].key, index[j].key)
  }

  lemma SortedKeyOrder(es: seq<Version>, i: nat, j: nat)
    requires Sorted(es) && i <= j < |es|
    ensures AtMost(es[i].key, es[j].key)
  {
  }

  lemma IndexSorted(es: seq<Version>, limit: int, index: seq<IndexEntry>)
    requires IsBlockIndex(es, limit, index) && Sorted(es)
    ensures SortedKeys(index)
  {
    var starts :| BlocksAt(es, limit, index, starts);
    forall i, j | 0 <= i < j < |index| ensures AtMost(index[i].key, index[j].key) {
      StartsIncrease(es, limit, index, starts, i, j);
      SortedKeyOrder(es, starts[i], starts[j]);
    }
  }

  /** getLowerBound: the last block whose first key is at most the key, or -1. */
  method LowerBound(key: Bytes, index: seq<IndexEntry>) returns (r: int)
    requires SortedKeys(index)
    ensures -1 <= r < |index|
    ensures forall i :: 0 <= i <= r ==> AtMost(index[i].key, key)
    ensures forall i :: r < i < |index| ==> Less(key, index[i].key)
  {
    var low, high := 0, |index| - 1;
    r := -1;
    while low <= high
      invariant 0 <= low <= high + 1 <= |index|
      invariant r == low - 1
      invariant forall i :: 0 <= i < low ==> AtMost(index[i].key, key)
      invariant forall i :: high < i < |index| ==> Less(key, index[i].key)
      decreases high - low
    {
      var mid := low + (high - low) / 2;
      LessTotal(index[mid].key, key);
      if index[mid].key == key || Less(index[mid].key, key) {
        forall i | 0 <= i <= mid ensures AtMost(index[i].key, key) {
          if i < mid && index[i].key != index[mid].key && index[mid].key != key {
            LessTransitive(index[i].key, index[mid].key, key);
          }
        }
        r := mid;
        low := mid + 1;
      } else {
        forall i | mid <= i < |index| ensures Less(key, index[i].key) {
          if mid < i && index[mid].key != index[i].key {
            LessTransitive(key, index[mid].key, index[i].key);
          }
        }
        high := mid - 1;
      }
    }
  }

  /* ---------- Point lookup ---------- */

  /** The position of the first entry whose key is above the searched one. */
  function FirstAbove(es: seq<Version>, key: Bytes): (n: nat)
    ensures n <= |es|
    ensures forall i :: 0 <= i < n ==> !Less(key, es[i].key)
    ensures n < |es| ==> Less(key, es[n].key)
  {
    if es == [] then 0
    else if Less(key, es[0].key) then 0
    else
      var m := FirstAbove(es[1..], key);
      assert forall i :: 0 < i < 1 + m ==> es[i] == es[1..][i - 1];
      1 + m
  }

  lemma {:induction false} StopIsUndecodable(buf: Bytes, i: nat)
    ensures DecodeEntry(buf, Stop(buf, i)).None?
    decreases |buf| - i
  {
    hide DecodeEntry, EncodeEntry;
    var e := DecodeEntry(buf, i);
    if e.Some? {
      StopIsUndecodable(buf, i + |EncodeEntry(e.value)|);
    }
  }

  lemma EntryBytes(buf: Bytes, stop: nat, es: seq<Version>, n: nat)
    requires stop <= |buf| && buf[..stop] == EncodeAll(es) && n < |es|
    ensures Offset(es, n + 1) == Offset(es, n) + |EncodeEntry(es[n])| <= stop
    ensures buf[Offset(es, n)..Offset(es, n + 1)] == EncodeEntry(es[n])
  {
    OffsetStep(es, n);
    MiddlePiece(buf, stop, EncodeAll(es[..n]), EncodeEntry(es[n]), EncodeAll(es[n + 1..]));
  }

  lemma MiddlePiece(buf: Bytes, stop: nat, a: Bytes, x: Bytes, c: Bytes)
    requires stop <= |buf| && buf[..stop] == a + x + c
    ensures |a| + |x| <= stop && buf[|a|..|a| + |x|] == x
  {
  }

  /** Entry n of an encoded run is what a read at its offset yields. */
  lemma EntryAtOffset(buf: Bytes, stop: nat, es: seq<Version>, n: nat)
    requires stop <= |buf| && buf[..stop] == EncodeAll(es) && AllFit(es) && n < |es|
    ensures DecodeEntry(buf, Offset(es, n)) == Some(es[n])
    ensures Offset(es, n + 1) == Offset(es, n) + |EncodeEntry(es[n])| <= stop
  {
    EntryBytes(buf, stop, es, n);
    EntryDecodes(buf, Offset(es, n), es[n]);
  }

  /** A scan that has read n entries stands at the offset of entry n and reads it next; after
      the last one it stands where nothing more can be read. */
  lemma ScanNext(buf: Bytes, es: seq<Version>, n: nat)
    requires es == Entries(buf, 0) && n <= |es|
    ensures Offset(es, n) <= Stop(buf, 0) <= |buf|
    ensures n < |es| ==> DecodeEntry(buf, Offset(es, n)) == Some(es[n])
    ensures n < |es| ==> Offset(es, n + 1) == Offset(es, n) + |EncodeEntry(es[n])| <= |buf|
    ensures n == |es| ==> DecodeEntry(buf, Offset(es, n)).None? && Offset(es, n) == Stop(buf, 0)
  {
    EntriesAreEncoded(buf, 0);
    var stop := Stop(buf, 0);
    assert buf[0..stop] == buf[..stop];
    if n < |es| {
      EntryAtOffset(buf, stop, es, n);
    } else {
      assert es[..n] == es;
      StopIsUndecodable(buf, 0);
    }
  }

  lemma GetStep(es: seq<Version>, n: nat, key: Bytes, r: Reader)
    requires n < |es| && n <= FirstAbove(es, key)
    ensures LastVisible(es[..n + 1], key, r) == if Candidate(key, r, es[n]) then Some(es[n]) else LastVisible(es[..n], key, r)
    ensures Less(key, es[n].key) <==> n == FirstAbove(es, key)
    ensures Candidate(key, r, es[n]) ==> n < FirstAbove(es, key)
  {
    assert es[..n + 1][..n] == es[..n];
    LessIrreflexive(key);
  }

  /** getValueFromSsTableDataBlock on any bytes: the last visible version of the key before the
      first larger key; an error only if the scan runs into a broken entry first. */
  method GetFromBlock(buf: Bytes, key: Bytes, r: Reader) returns (value: Result<Bytes>)
    ensures var es := Entries(buf, 0);
            var n := FirstAbove(es, key);
            value == if n < |es| || Stop(buf, 0) == |buf| then Ok(ValueOf(LastVisible(es[..n], key, r))) else Err
  {
    ghost var es := Entries(buf, 0);
    ghost var n := 0;
    var i := 0;
    var best: Bytes := [];
    assert es[..0] == [];
    while i < |buf|
      invariant n <= |es| && i == Offset(es, n) && n <= FirstAbove(es, key)
      invariant best == ValueOf(LastVisible(es[..n], key, r))
      invariant i <= |buf|
      decreases |buf| - i
    {
      ScanNext(buf, es, n);
      var e := DecodeEntry(buf, i);
      if e.None? { return Err; }
      GetStep(es, n, key, r);
      if e.value.key == key && Visible(r, e.value.txn) {
        best := e.value.value;
      } else if Less(key, e.value.key) {
        return Ok(best);
      }
      i := i + |EncodeEntry(e.value)|;
      n := n + 1;
    }
    ScanNext(buf, es, n);
    return Ok(best);
  }

  /** Stopping at the first larger key loses nothing on a sorted run. */
  lemma StopIsHarmless(es: seq<Version>, key: Bytes, r: Reader)
    requires Sorted(es)
    ensures LastVisible(es[..FirstAbove(es, key)], key, r) == LastVisible(es, key, r)
  {
    var n := FirstAbove(es, key);
    forall j | n <= j < |es| ensures es[j].key != key {
      SortedKeyOrder(es, n, j);
      LessAsymmetric(key, es[n].key);
    }
    DropTail(es, key, r, n);
  }

  lemma {:induction false} DropTail(es: seq<Version>, key: Bytes, r: Reader, n: nat)
    requires n <= |es| && forall j :: n <= j < |es| ==> es[j].key != key
    ensures LastVisible(es[..n], key, r) == LastVisible(es, key, r)
  {
    if n == |es| {
      assert es[..n] == es;
    } else {
      DropTail(es[..|es| - 1], key, r, n);
      assert es[..|es| - 1][..n] == es[..n];
    }
  }

  /** The last visible version of a run, from its two halves. */
  lemma {:induction false} LastVisibleSplit(es: seq<Version>, p: nat, key: Bytes, r: Reader)
    requires p <= |es|
    ensures LastVisible(es, key, r) ==
            if LastVisible(es[p..], key, r).Some? then LastVisible(es[p..], key, r) else LastVisible(es[..p], key, r)
  {
    if p == |es| {
      assert es[..p] == es && es[p..] == [];
    } else {
      var init := es[..|es| - 1];
      LastVisibleSplit(init, p, key, r);
      assert init[..p] == es[..p];
      assert es[p..][..|es[p..]| - 1] == init[p..];
    }
  }

  /** The block the binary search chose, as an entry position. */
  ghost predicate ChosenBlock(es: seq<Version>, limit: int, index: seq<IndexEntry>, key: Bytes, b: int, p: nat) {
    && IsBlockIndex(es, limit, index)
    && 0 <= b < |index| && p < |es|
    && index[b] == IndexEntry(es[p].key, Offset(es, p))
    && AtMost(es[p].key, key)
    && (forall i :: b < i < |index| ==> Less(key, index[i].key))
    && (forall i :: 0 <= i < p ==> AtMost(es[i].key, es[p].key))
  }

  lemma ChooseBlock(es: seq<Version>, limit: int, index: seq<IndexEntry>, key: Bytes, b: int) returns (p: nat)
    requires IsBlockIndex(es, limit, index) && Sorted(es)
    requires 0 <= b < |index| && AtMost(index[b].key, key)
    requires forall i :: b < i < |index| ==> Less(key, index[i].key)
    ensures ChosenBlock(es, limit, index, key, b, p)
  {
    var starts :| BlocksAt(es, limit, index, starts);
    p := starts[b];
    forall i | 0 <= i < p ensures AtMost(es[i].key, es[p].key) { SortedKeyOrder(es, i, p); }
  }

  /** From the chosen block on, the scan sees a suffix of the key's versions, not empty if the
      file has the key at all; it misses earlier ones only if the block begins with the key. */
  lemma ChosenBlockHasKey(es: seq<Version>, limit: int, index: seq<IndexEntry>, key: Bytes, b: int, p: nat)
    requires ChosenBlock(es, limit, index, key, b, p)
    ensures (exists e :: e in es && e.key == key) ==> exists e :: e in es[p..] && e.key == key
    ensures es[p].key != key ==> forall i :: 0 <= i < p ==> es[i].key != key
  {
    forall i | 0 <= i < p && es[i].key == key ensures es[p].key == key {
      if es[p].key != key { LessAsymmetric(es[p].key, key); }
    }
    if e :| e in es && e.key == key {
      var i :| 0 <= i < |es| && es[i] == e;
      if i < p { assert es[p] in es[p..]; } else { assert es[p..][i - p] == e; }
    }
  }

  /** Scanning from entry p answers every reader like scanning the whole file exactly if no version
      of the key lies before p only. */
  lemma IndexedLookupExact(es: seq<Version>, p: nat, key: Bytes)
    requires p <= |es| && Sorted(es) && Functional(Elems(es))
    ensures (forall r :: LastVisible(es[p..], key, r) == LastVisible(es, key, r))
       <==> (forall i :: 0 <= i < p && es[i].key == key ==> es[i] in es[p..])
  {
    if forall i :: 0 <= i < p && es[i].key == key ==> es[i] in es[p..] {
      forall r ensures LastVisible(es[p..], key, r) == LastVisible(es, key, r) {
        LastVisibleSplit(es, p, key, r);
        assert LastVisible(es[..p], key, r).Some? ==> LastVisible(es[..p], key, r).value in es[..p];
      }
    }
    if i :| 0 <= i < p && es[i].key == key && es[i] !in es[p..] {
      MissedByItsReader(es, p, key, i);
    }
  }

  /** The reader that sees the ids up to a version that lies before p only. */
  lemma MissedByItsReader(es: seq<Version>, p: nat, key: Bytes, i: nat)
    requires p <= |es| && Sorted(es) && Functional(Elems(es))
    requires i < p && es[i].key == key && es[i] !in es[p..]
    ensures var r := Reader(es[i].txn, {});
            LastVisible(es[p..], key, r).None? && LastVisible(es, key, r).Some?
  {
    var r := Reader(es[i].txn, {});
    forall j | p <= j < |es| && es[j].key == key ensures es[i].txn < es[j].txn {
      assert es[p..][j - p] == es[j];
      assert Before(es[i], es[j]) || SameSlot(es[i], es[j]);
      assert es[i] in Elems(es) && es[j] in Elems(es);
    }
    assert forall e :: e in es[p..] ==> !Candidate(key, r, e);
    assert Candidate(key, r, es[i]);
  }

  /** Where every version has its own slot, that is: no version of the key lies before p at all. */
  lemma StrictLookupExact(es: seq<Version>, p: nat, key: Bytes)
    requires p <= |es| && StrictlySorted(es)
    ensures (forall r :: LastVisible(es[p..], key, r) == LastVisible(es, key, r))
       <==> (forall i :: 0 <= i < p ==> es[i].key != key)
  {
    forall i, j | 0 <= i < j < |es| ensures es[i] != es[j] { BeforeTotal(es[i], es[j]); }
    SlotsApart(es);
    IndexedLookupExact(es, p, key);
    forall i | 0 <= i < p ensures es[i] !in es[p..] {}
  }

  lemma SlotsApart(es: seq<Version>)
    requires StrictlySorted(es)
    ensures Functional(Elems(es)) && Sorted(es)
  {
    forall v, w | v in Elems(es) && w in Elems(es) && SameSlot(v, w) ensures v == w {
      var i :| 0 <= i < |es| && es[i] == v;
      var j :| 0 <= j < |es| && es[j] == w;
      if i < j { BeforeTotal(v, w); }
      if j < i { BeforeTotal(w, v); }
    }
  }

  /** A key's versions straddling a block border defeat the lookup: the reader that sees only
      the earlier version is told the file has none. */
  lemma StraddledKeyIsMissed()
    ensures var k := [107];
            var es := [Version(k, [1], 1), Version(k, [2], 2)];
            var index := [IndexEntry(k, 0), IndexEntry(k, Offset(es, 1))];
            var r := Reader(3, {2, 3});
            && Sorted(es) && BlocksAt(es, 1, index, [0, 1])
            && LastVisible(es, k, r) == Some(es[0])
            && LastVisible(es[1..], k, r) == None
  {
    var k: Bytes := [107];
    var es := [Version(k, [1], 1), Version(k, [2], 2)];
    var index := [IndexEntry(k, 0), IndexEntry(k, Offset(es, 1))];
    OffsetStep(es, 0);
    OffsetStep(es, 1);
    assert es[..0] == [] && Offset(es, 0) == 0;
    assert FullBlock(es, 1, 0, 1);
    assert BlocksAt(es, 1, index, [0, 1]);
    var r := Reader(3, {2, 3});
    assert es[..1] == [es[0]];
    assert es[1..] == [es[1]] && es[1..][..0] == [];
  }
}
