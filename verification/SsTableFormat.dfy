/** The byte layout of an SSTable file (sstable/sstable.go):
    entries [txnId 8][keyLen 4][key][valueLen 4][value], then the index
    [keyLen 4][key][offset 4], then the offset of the index in 4 bytes. */
module SsTableFormat {
  import opened Bytes
  import opened Mvcc

  datatype IndexEntry = IndexEntry(key: Bytes, offset: nat)

  /* ---------- One entry ---------- */

  function EncodeEntry(e: Version): (r: Bytes)
    ensures |r| == 16 + |e.key| + |e.value|
  {
    U64(e.txn) + Str(e.key) + Str(e.value)
  }

  /** Sizes the fixed-width fields can hold. */
  predicate Fits(e: Version) {
    e.txn < TWO_64 && |e.key| < TWO_32 && |e.value| < TWO_32
  }

  /** The three reads every scan loop makes for one entry. */
  function DecodeEntry(buf: Bytes, i: nat): (r: Option<Version>)
    ensures r.Some? ==> i + |EncodeEntry(r.value)| <= |buf|
  {
    if i + 8 > |buf| then None
    else
      var key := ExtractString(buf, i + 8);
      if key.None? then None
      else
        var value := ExtractString(buf, i + 12 + |key.value|);
        if value.None? then None
        else Some(Version(key.value, value.value, FromU64(buf[i..i + 8])))
  }

  lemma StringDecodes(buf: Bytes, i: nat, s: Bytes)
    requires |s| < TWO_32 && i + 4 + |s| <= |buf| && buf[i..i + 4 + |s|] == Str(s)
    ensures ExtractString(buf, i) == Some(s)
  {
    var piece := buf[i..i + 4 + |s|];
    assert buf[i..i + 4] == piece[..4] == U32(|s|);
    U32RoundTrip(|s|);
    assert buf[i + 4..i + 4 + |s|] == piece[4..] == s;
  }

  lemma EntryDecodes(buf: Bytes, i: nat, e: Version)
    requires Fits(e) && i + |EncodeEntry(e)| <= |buf| && buf[i..i + |EncodeEntry(e)|] == EncodeEntry(e)
    ensures DecodeEntry(buf, i) == Some(e)
  {
    var u, k, v := U64(e.txn), Str(e.key), Str(e.value);
    ThreeParts(buf, i, u, k, v);
    U64RoundTrip(e.txn);
    StringDecodes(buf, i + 8, e.key);
    StringDecodes(buf, i + 8 + |k|, e.value);
  }

  lemma ExtractIsEncoded(buf: Bytes, i: nat)
    requires ExtractString(buf, i).Some?
    ensures var s := ExtractString(buf, i).value;
            |s| < TWO_32 && buf[i..i + 4 + |s|] == Str(s)
  {
    var s := ExtractString(buf, i).value;
    U32Onto(buf[i..i + 4]);
    assert buf[i..i + 4 + |s|] == buf[i..i + 4] + buf[i + 4..i + 4 + |s|];
  }

  /** Whatever decodes is the encoding of what it decodes to. */
  lemma DecodedIsEncoded(buf: Bytes, i: nat)
    requires DecodeEntry(buf, i).Some?
    ensures var e := DecodeEntry(buf, i).value;
            Fits(e) && buf[i..i + |EncodeEntry(e)|] == EncodeEntry(e)
  {
    hide U64, FromU64, Str, ExtractString;
    var e := DecodeEntry(buf, i).value;
    U64Onto(buf[i..i + 8]);
    ExtractIsEncoded(buf, i + 8);
    ExtractIsEncoded(buf, i + 12 + |e.key|);
    ThreePieces(buf, i, i + 8, i + 12 + |e.key|, i + 16 + |e.key| + |e.value|);
  }

  /* ---------- Runs of entries ---------- */

  function EncodeAll(es: seq<Version>): Bytes {
    if es == [] then [] else EncodeAll(es[..|es| - 1]) + EncodeEntry(es[|es| - 1])
  }

  ghost predicate AllFit(es: seq<Version>) {
    forall i :: 0 <= i < |es| ==> Fits(es[i])
  }

  /** The byte offset at which entry n starts. */
  function Offset(es: seq<Version>, n: nat): nat
    requires n <= |es|
  {
    |EncodeAll(es[..n])|
  }

  lemma {:induction false} EncodeSplit(a: seq<Version>, b: seq<Version>)
    ensures EncodeAll(a + b) == EncodeAll(a) + EncodeAll(b)
  {
    if b == [] {
      assert a + b == a;
    } else {
      assert (a + b)[..|a + b| - 1] == a + b[..|b| - 1];
      EncodeSplit(a, b[..|b| - 1]);
    }
  }

  lemma EncodeLast(es: seq<Version>)
    requires es != []
    ensures EncodeAll(es) == EncodeAll(es[..|es| - 1]) + EncodeEntry(es[|es| - 1])
  {
  }

  lemma OffsetStep(es: seq<Version>, n: nat)
    requires n < |es|
    ensures Offset(es, n + 1) == Offset(es, n) + |EncodeEntry(es[n])|
    ensures Offset(es, n) + |EncodeEntry(es[n])| <= |EncodeAll(es)|
    ensures EncodeAll(es) == EncodeAll(es[..n]) + EncodeEntry(es[n]) + EncodeAll(es[n + 1..])
  {
    hide EncodeEntry, EncodeAll;
    EncodeLast(es[..n + 1]);
    assert es[..n + 1][..n] == es[..n];
    EncodeSplit(es[..n + 1], es[n + 1..]);
    assert es == es[..n + 1] + es[n + 1..];
  }

  lemma OffsetSuffix(es: seq<Version>, n: nat)
    requires n <= |es|
    ensures Offset(es, n) <= |EncodeAll(es)|
    ensures EncodeAll(es)[Offset(es, n)..] == EncodeAll(es[n..])
  {
    hide EncodeEntry, EncodeAll;
    EncodeSplit(es[..n], es[n..]);
    assert es == es[..n] + es[n..];
  }

  lemma EncodeEmptyIff(es: seq<Version>)
    ensures EncodeAll(es) == [] <==> es == []
  {
  }

  /* ---------- What a scan makes of any byte string ---------- */

  /** The longest run of whole entries from position i on. */
  function Entries(buf: Bytes, i: nat): seq<Version>
    decreases |buf| - i
  {
    var e := DecodeEntry(buf, i);
    if e.None? then [] else [e.value] + Entries(buf, i + |EncodeEntry(e.value)|)
  }

  /** Where that run ends: the end of the buffer, or the entry that is cut short. */
  function Stop(buf: Bytes, i: nat): nat
    decreases |buf| - i
  {
    var e := DecodeEntry(buf, i);
    if e.None? then i else Stop(buf, i + |EncodeEntry(e.value)|)
  }

  lemma {:induction false} EntriesEncoded(buf: Bytes, i: nat, es: seq<Version>)
    requires AllFit(es) && i <= |buf| && buf[i..] == EncodeAll(es)
    ensures Entries(buf, i) == es
    ensures Stop(buf, i) == |buf|
    decreases |es|
  {
    hide DecodeEntry, EncodeEntry, EncodeAll, Entries, Stop;
    if es == [] {
      EncodeEmptyIff(es);
      EntriesEmpty(buf, i);
    } else {
      var next := HeadDecodes(buf, i, es);
      EntriesEncoded(buf, next, es[1..]);
      EntriesStep(buf, i, es[0], next);
      assert es == [es[0]] + es[1..];
    }
  }

  lemma EntriesEmpty(buf: Bytes, i: nat)
    requires i == |buf|
    ensures Entries(buf, i) == [] && Stop(buf, i) == i
  {
  }

  lemma HeadDecodes(buf: Bytes, i: nat, es: seq<Version>) returns (next: nat)
    requires AllFit(es) && es != [] && i <= |buf| && buf[i..] == EncodeAll(es)
    ensures DecodeEntry(buf, i) == Some(es[0]) && next == i + |EncodeEntry(es[0])| <= |buf|
    ensures buf[next..] == EncodeAll(es[1..])
  {
    var x := EncodeEntry(es[0]);
    HeadEncoded(es);
    Peel(buf, i, x, EncodeAll(es[1..]));
    EntryDecodes(buf, i, es[0]);
    next := i + |x|;
  }

  lemma EntriesStep(buf: Bytes, i: nat, e: Version, next: nat)
    requires DecodeEntry(buf, i) == Some(e) && next == i + |EncodeEntry(e)|
    ensures Entries(buf, i) == [e] + Entries(buf, next)
    ensures Stop(buf, i) == Stop(buf, next)
  {
    hide DecodeEntry, EncodeEntry;
  }

  lemma Peel(buf: Bytes, i: nat, x: Bytes, post: Bytes)
    requires i <= |buf| && buf[i..] == x + post
    ensures i + |x| <= |buf| && buf[i..i + |x|] == x && buf[i + |x|..] == post
  {
    var tail := buf[i..];
    assert tail[..|x|] == x && tail[|x|..] == post;
  }

  lemma HeadEncoded(es: seq<Version>)
    requires es != []
    ensures EncodeAll(es) == EncodeEntry(es[0]) + EncodeAll(es[1..])
  {
    EncodeSplit([es[0]], es[1..]);
    assert es == [es[0]] + es[1..];
    EncodeOne(es[0]);
  }

  lemma EncodeOne(e: Version)
    ensures EncodeAll([e]) == EncodeEntry(e)
  {
    assert [e][..0] == [];
  }

  /** Every buffer is the encoding of its entries up to where the scan stops. */
  lemma {:induction false} EntriesAreEncoded(buf: Bytes, i: nat)
    requires i <= |buf|
    ensures i <= Stop(buf, i) <= |buf| && AllFit(Entries(buf, i))
    ensures buf[i..Stop(buf, i)] == EncodeAll(Entries(buf, i))
    decreases |buf| - i
  {
    hide DecodeEntry, EncodeEntry;
    var e := DecodeEntry(buf, i);
    if e.Some? {
      var next := i + |EncodeEntry(e.value)|;
      DecodedIsEncoded(buf, i);
      EntriesAreEncoded(buf, next);
      HeadEncoded(Entries(buf, i));
      ThreePieces(buf, i, next, Stop(buf, i), Stop(buf, i));
    } else {
      assert buf[i..i] == [];
    }
  }

  /* ---------- Blocks and their index ---------- */

  ghost predicate NonEmptyKeys(es: seq<Version>) {
    forall i :: 0 <= i < |es| ==> es[i].key != []
  }

  /** Entries from..to make a complete block: it exceeds the limit, but not without its last entry. */
  ghost predicate FullBlock(es: seq<Version>, limit: int, from: nat, to: nat)
  {
    && from < to <= |es|
    && Offset(es, to) - Offset(es, from) > limit
    && (to - 1 == from || Offset(es, to - 1) - Offset(es, from) <= limit)
  }

  /** Blocks begin at entries starts[..], the first at 0; every block but the last is full and
      the last is at most full; the index names each block's first key and offset. */
  ghost predicate BlocksAt(es: seq<Version>, limit: int, index: seq<IndexEntry>, starts: seq<nat>) {
    && |starts| == |index|
    && (es == [] <==> starts == [])
    && (starts != [] ==> starts[0] == 0)
    && (forall j :: 0 <= j < |starts| ==> starts[j] < |es|)
    && (forall j :: 0 <= j < |starts| ==> index[j] == IndexEntry(es[starts[j]].key, Offset(es, starts[j])))
    && (forall j :: 0 <= j < |starts| - 1 ==> FullBlock(es, limit, starts[j], starts[j + 1]))
    && (starts != [] ==>
          var last := starts[|starts| - 1];
          |es| - 1 == last || Offset(es, |es| - 1) - Offset(es, last) <= limit)
  }

  ghost predicate IsBlockIndex(es: seq<Version>, limit: int, index: seq<IndexEntry>) {
    exists starts :: BlocksAt(es, limit, index, starts)
  }

  lemma {:induction false} StartsIncrease(es: seq<Version>, limit: int, index: seq<IndexEntry>, starts: seq<nat>, i: nat, j: nat)
    requires BlocksAt(es, limit, index, starts) && i < j < |starts|
    ensures starts[i] < starts[j]
  {
    assert FullBlock(es, limit, starts[j - 1], starts[j]);
    if i < j - 1 { StartsIncrease(es, limit, index, starts, i, j - 1); }
  }

  /* ---------- The index block ---------- */

  function EncodeIndex(index: seq<IndexEntry>): Bytes {
    if index == [] then []
    else
      var x := index[|index| - 1];
      EncodeIndex(index[..|index| - 1]) + (Str(x.key) + U32(x.offset))
  }

  /** A whole file: data blocks, index block, footer. */
  function FileBytes(es: seq<Version>, index: seq<IndexEntry>): Bytes {
    EncodeAll(es) + EncodeIndex(index) + U32(|EncodeAll(es)|)
  }

  ghost predicate IndexFits(index: seq<IndexEntry>) {
    forall i :: 0 <= i < |index| ==> |index[i].key| < TWO_32 && index[i].offset < TWO_32
  }

  /** Where the n-th index entry lies in the index block. */
  function IndexOffset(index: seq<IndexEntry>, n: nat): nat
    requires n <= |index|
  {
    |EncodeIndex(index[..n])|
  }

  /** Where everything lies in a file. Entry after entry: eight bytes of id, four of key length, the key,
      four of value length, the value. Behind the last entry the index: four bytes of key length, the key,
      four bytes of offset. And the last four bytes say where the index starts. */
  lemma EntryLayout(es: seq<Version>, index: seq<IndexEntry>, n: nat)
    requires n < |es|
    ensures var f, e, at := FileBytes(es, index), es[n], Offset(es, n);
            var k, v := at + 12, at + 16 + |e.key|;
            && Offset(es, n + 1) == v + |e.value| <= |f| && Offset(es, 0) == 0
            && f[at..at + 8] == U64(e.txn) && f[at + 8..k] == U32(|e.key|) && f[k..k + |e.key|] == e.key
            && f[k + |e.key|..v] == U32(|e.value|) && f[v..v + |e.value|] == e.value
  {
    hide U32, U64, EncodeIndex, EncodeAll;
    var f, e, at := FileBytes(es, index), es[n], Offset(es, n);
    var tail := EncodeAll(es[n + 1..]) + EncodeIndex(index) + U32(|EncodeAll(es)|);
    OffsetStep(es, n);
    assert EncodeAll(es[..0]) == [] by { EncodeEmptyIff(es[..0]); }
    assert f == EncodeAll(es[..n]) + EncodeEntry(e) + tail;
    assert f[at..at + |EncodeEntry(e)|] == EncodeEntry(e);
    ThreeParts(f, at, U64(e.txn), Str(e.key), Str(e.value));
    ThreeParts(f, at + 8, U32(|e.key|), e.key, []);
    ThreeParts(f, at + 12 + |e.key|, U32(|e.value|), e.value, []);
  }

  lemma IndexLayout(es: seq<Version>, index: seq<IndexEntry>, n: nat)
    requires n < |index|
    ensures var f, x, at := FileBytes(es, index), index[n], Offset(es, |es|) + IndexOffset(index, n);
            && IndexOffset(index, n + 1) == IndexOffset(index, n) + 8 + |x.key| && IndexOffset(index, 0) == 0
            && at + 8 + |x.key| <= |f| == Offset(es, |es|) + IndexOffset(index, |index|) + 4
            && f[at..at + 4] == U32(|x.key|) && f[at + 4..at + 4 + |x.key|] == x.key
            && f[at + 4 + |x.key|..at + 8 + |x.key|] == U32(x.offset)
  {
    hide U32, EncodeAll, EncodeIndex, Str;
    var f, x := FileBytes(es, index), index[n];
    var one := Str(x.key) + U32(x.offset);
    assert es[..|es|] == es && index[..|index|] == index;
    IndexSplit(index, n);
    var before := EncodeAll(es) + EncodeIndex(index[..n]);
    var behind := EncodeIndex(index[n + 1..]) + U32(|EncodeAll(es)|);
    assert f == before + one + behind;
    assert f[|before|..|before| + |one|] == one;
    assert one == U32(|x.key|) + x.key + U32(x.offset) by { StrIs(x.key); }
    ThreeParts(f, |before|, U32(|x.key|), x.key, U32(x.offset));
  }

  lemma StrIs(s: Bytes)
    ensures Str(s) == U32(|s|) + s
  {
  }

  lemma IndexSplit(index: seq<IndexEntry>, n: nat)
    requires n < |index|
    ensures EncodeIndex(index) == EncodeIndex(index[..n]) + (Str(index[n].key) + U32(index[n].offset)) + EncodeIndex(index[n + 1..])
    ensures EncodeIndex(index[..n + 1]) == EncodeIndex(index[..n]) + (Str(index[n].key) + U32(index[n].offset))
    ensures EncodeIndex(index[..0]) == []
  {
    hide U32, Str, EncodeIndex;
    assert index[..0] == [] && index[..n + 1] == index[..n] + [index[n]];
    IndexEnds(index[..n], index[n]);
    assert index[..n + 1] + index[n + 1..] == index;
    EncodeIndexSplit(index[..n + 1], index[n + 1..]);
  }

  lemma IndexEnds(index: seq<IndexEntry>, x: IndexEntry)
    ensures EncodeIndex([]) == []
    ensures EncodeIndex(index + [x]) == EncodeIndex(index) + (Str(x.key) + U32(x.offset))
  {
    hide U32, Str;
    assert (index + [x])[..|index|] == index;
  }

  lemma FooterLayout(es: seq<Version>, index: seq<IndexEntry>)
    ensures var f := FileBytes(es, index); f[|f| - 4..] == U32(Offset(es, |es|))
  {
    hide U32, EncodeAll, EncodeIndex;
    assert es[..|es|] == es;
  }

  /** The index reader of buildIndexFromFile; None where it reports corruption or would read
      past the end of the index. */
  function DecodeIndex(buf: Bytes, i: nat): Option<seq<IndexEntry>>
    decreases |buf| - i
  {
    if i >= |buf| then Some([])
    else if i + 4 >= |buf| then None
    else
      var n := FromU32(buf[i..i + 4]);
      if i + 8 + n > |buf| then None
      else
        var rest := DecodeIndex(buf, i + 8 + n);
        if rest.None? then None
        else Some([IndexEntry(buf[i + 4..i + 4 + n], FromU32(buf[i + 4 + n..i + 8 + n]))] + rest.value)
  }

  /** Blocks are cut as soon as they exceed the limit: between two index offsets lie more bytes than the
      limit, and without the last entry of the block there would not, unless it is the only one. */
  lemma BlockSizes(es: seq<Version>, limit: int, index: seq<IndexEntry>, j: nat) returns (e: Version)
    requires IsBlockIndex(es, limit, index) && j + 1 < |index|
    ensures e in es
    ensures index[j + 1].offset - index[j].offset > limit
    ensures var size := 16 + |e.key| + |e.value|;
            index[j + 1].offset - index[j].offset == size || index[j + 1].offset - index[j].offset - size <= limit
  {
    hide BlocksAt, EncodeAll, FullBlock, EncodeEntry, Offset;
    var starts :| BlocksAt(es, limit, index, starts);
    BlockAt(es, limit, index, starts, j);
    var last := starts[j + 1] - 1;
    e := es[last];
    OffsetStep(es, last);
    EntrySize(e);
    OffsetsApart(es, limit, starts[j], starts[j + 1]);
  }

  lemma BlockAt(es: seq<Version>, limit: int, index: seq<IndexEntry>, starts: seq<nat>, j: nat)
    requires BlocksAt(es, limit, index, starts) && j + 1 < |index|
    ensures |starts| == |index| && FullBlock(es, limit, starts[j], starts[j + 1])
    ensures 0 < starts[j + 1] <= |es| && starts[j] < starts[j + 1]
    ensures index[j].offset == Offset(es, starts[j]) && index[j + 1].offset == Offset(es, starts[j + 1])
  {
    hide EncodeAll;
  }

  lemma EntrySize(e: Version)
    ensures |EncodeEntry(e)| == 16 + |e.key| + |e.value|
  {
  }

  lemma OffsetsApart(es: seq<Version>, limit: int, from: nat, to: nat)
    requires FullBlock(es, limit, from, to)
    ensures from < to <= |es| && Offset(es, to) - Offset(es, from) > limit
    ensures to - 1 == from || Offset(es, to - 1) - Offset(es, from) <= limit
  {
    hide EncodeAll, Offset;
  }

  lemma {:induction false} EncodeIndexSplit(a: seq<IndexEntry>, b: seq<IndexEntry>)
    ensures EncodeIndex(a + b) == EncodeIndex(a) + EncodeIndex(b)
  {
    if b == [] {
      assert a + b == a;
    } else {
      assert (a + b)[..|a + b| - 1] == a + b[..|b| - 1];
      EncodeIndexSplit(a, b[..|b| - 1]);
    }
  }

  /** One index entry, read back. */
  lemma IndexEntryRead(buf: Bytes, i: nat, x: IndexEntry, post: Bytes)
    requires |x.key| < TWO_32 && x.offset < TWO_32
    requires i <= |buf| && buf[i..] == Str(x.key) + U32(x.offset) + post
    ensures var n := |x.key|;
            && i + 8 + n <= |buf| && buf[i + 8 + n..] == post
            && FromU32(buf[i..i + 4]) == n && buf[i + 4..i + 4 + n] == x.key
            && FromU32(buf[i + 4 + n..i + 8 + n]) == x.offset
  {
    hide U32, FromU32;
    Peel(buf, i, Str(x.key) + U32(x.offset), post);
    ThreeParts(buf, i, U32(|x.key|), x.key, U32(x.offset));
    U32RoundTrip(|x.key|);
    U32RoundTrip(x.offset);
  }

  lemma EncodeIndexHead(index: seq<IndexEntry>)
    requires index != []
    ensures EncodeIndex(index) == Str(index[0].key) + U32(index[0].offset) + EncodeIndex(index[1..])
  {
    hide U32, Str;
    var x, rest := index[0], index[1..];
    assert index == [x] + rest;
    EncodeIndexSplit([x], rest);
    assert [x][..0] == [];
  }

  lemma {:induction false} IndexRoundTrip(buf: Bytes, i: nat, index: seq<IndexEntry>)
    requires IndexFits(index) && i <= |buf| && buf[i..] == EncodeIndex(index)
    ensures DecodeIndex(buf, i) == Some(index)
    decreases |index|
  {
    hide U32, FromU32, Str, EncodeIndex;
    if index == [] {
      EmptyIndex();
    } else {
      EncodeIndexHead(index);
      IndexEntryRead(buf, i, index[0], EncodeIndex(index[1..]));
      IndexRoundTrip(buf, i + 8 + |index[0].key|, index[1..]);
      assert index == [index[0]] + index[1..];
    }
  }

  /** An index block is read, as these entries, exactly if it is their encoding. */
  lemma IndexReadExactly(buf: Bytes, index: seq<IndexEntry>)
    ensures DecodeIndex(buf, 0) == Some(index) <==> IndexFits(index) && buf == EncodeIndex(index)
  {
    hide DecodeIndex, EncodeIndex, IndexFits;
    assert buf[0..] == buf;
    if IndexFits(index) && buf == EncodeIndex(index) { IndexRoundTrip(buf, 0, index); }
    if DecodeIndex(buf, 0).Some? { DecodedIndexEncodes(buf, 0); }
  }

  lemma {:induction false} DecodedIndexEncodes(buf: Bytes, i: nat)
    requires i <= |buf| && DecodeIndex(buf, i).Some?
    ensures IndexFits(DecodeIndex(buf, i).value) && EncodeIndex(DecodeIndex(buf, i).value) == buf[i..]
    decreases |buf| - i
  {
    hide U32, FromU32, Str, EncodeIndex;
    var index := DecodeIndex(buf, i).value;
    if i == |buf| {
      EmptyIndex();
    } else {
      var n := FromU32(buf[i..i + 4]);
      var next := i + 8 + n;
      DecodedIndexEncodes(buf, next);
      var rest := DecodeIndex(buf, next).value;
      assert index[1..] == rest && index == [index[0]] + rest;
      EncodeIndexHead(index);
      U32Onto(buf[i..i + 4]);
      U32Onto(buf[i + 4 + n..next]);
      StrIs(index[0].key);
      assert buf[i..] == buf[i..i + 4] + buf[i + 4..i + 4 + n] + buf[i + 4 + n..next] + buf[next..];
    }
  }

  lemma EmptyIndex()
    ensures EncodeIndex([]) == []
  {
  }

  /** The file's footer, and through it the whole index, can be read back. */
  lemma FooterRoundTrip(es: seq<Version>, index: seq<IndexEntry>)
    requires |EncodeAll(es)| < TWO_32
    ensures var f := FileBytes(es, index);
            && |f| >= 4 && FromU32(f[|f| - 4..]) == |EncodeAll(es)|
            && |EncodeAll(es)| <= |f| - 4
            && f[|EncodeAll(es)|..|f| - 4] == EncodeIndex(index)
            && f[..|EncodeAll(es)|] == EncodeAll(es)
  {
    var f := FileBytes(es, index);
    U32RoundTrip(|EncodeAll(es)|);
    assert f[|f| - 4..] == U32(|EncodeAll(es)|);
  }
}
