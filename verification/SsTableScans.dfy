/** Scans over whole files: the prefix scan of sstable/sstable.go and the merge loop of
    sstable/compaction.go. */
module SsTableScans {
  import opened Bytes
  import opened Mvcc
  import opened Compaction
  import opened SsTableFormat
  import opened SsTableFiles

  datatype ValueTxn = ValueTxn(value: Bytes, txn: TxnId)

  /* ---------- Prefix scan of one block range ---------- */

  /** What the scan loop does with one entry. */
  function Absorb(m: map<Bytes, ValueTxn>, e: Version, prefix: Bytes, r: Reader): map<Bytes, ValueTxn> {
    if HasPrefix(e.key, prefix) && (e.key !in m || m[e.key].txn < e.txn) && Visible(r, e.txn)
    then m[e.key := ValueTxn(e.value, e.txn)]
    else m
  }

  function AbsorbAll(m: map<Bytes, ValueTxn>, es: seq<Version>, prefix: Bytes, r: Reader): map<Bytes, ValueTxn> {
    if es == [] then m else Absorb(AbsorbAll(m, es[..|es| - 1], prefix, r), es[|es| - 1], prefix, r)
  }

  /** What the map holds for a key stays, unless a newer version replaces it. */
  lemma {:induction false} AbsorbKeeps(m: map<Bytes, ValueTxn>, es: seq<Version>, prefix: Bytes, r: Reader, k: Bytes)
    requires k in m
    ensures var m' := AbsorbAll(m, es, prefix, r); k in m' && (m'[k] == m[k] || m'[k].txn > m[k].txn)
    decreases |es|
  {
    hide Visible, HasPrefix;
    if es != [] { AbsorbKeeps(m, es[..|es| - 1], prefix, r, k); }
  }

  /** The early exit: a key that lacks the prefix and whose head is above it. */
  predicate Past(key: Bytes, prefix: Bytes) {
    !HasPrefix(key, prefix) && Less(prefix, Clip(key, |prefix|))
  }

  function FirstPast(es: seq<Version>, prefix: Bytes): (n: nat)
    ensures n <= |es|
    ensures forall i :: 0 <= i < n ==> !Past(es[i].key, prefix)
    ensures n < |es| ==> Past(es[n].key, prefix)
  {
    if es == [] then 0
    else if Past(es[0].key, prefix) then 0
    else
      var m := FirstPast(es[1..], prefix);
      assert forall i :: 0 < i < 1 + m ==> es[i] == es[1..][i - 1];
      1 + m
  }

  lemma AbsorbStep(m: map<Bytes, ValueTxn>, es: seq<Version>, n: nat, prefix: Bytes, r: Reader)
    requires n < |es| && n <= FirstPast(es, prefix)
    ensures AbsorbAll(m, es[..n + 1], prefix, r) == Absorb(AbsorbAll(m, es[..n], prefix, r), es[n], prefix, r)
    ensures Past(es[n].key, prefix) <==> n == FirstPast(es, prefix)
  {
    assert es[..n + 1][..n] == es[..n];
  }

  /** sequentiallyScanTableAndUpdateMap on any bytes. */
  method ScanBlocks(buf: Bytes, prefix: Bytes, m: map<Bytes, ValueTxn>, r: Reader) returns (found: Result<map<Bytes, ValueTxn>>)
    ensures var es := Entries(buf, 0);
            var n := FirstPast(es, prefix);
            found == if n < |es| || Stop(buf, 0) == |buf| then Ok(AbsorbAll(m, es[..n], prefix, r)) else Err
  {
    ghost var es := Entries(buf, 0);
    ghost var n := 0;
    var table := m;
    var i := 0;
    assert es[..0] == [];
    while i < |buf|
      invariant n <= |es| && i == Offset(es, n) && n <= FirstPast(es, prefix)
      invariant table == AbsorbAll(m, es[..n], prefix, r)
      invariant i <= |buf|
      decreases |buf| - i
    {
      ScanNext(buf, es, n);
      var e := DecodeEntry(buf, i);
      if e.None? { return Err; }
      AbsorbStep(m, es, n, prefix, r);
      var key, txn := e.value.key, e.value.txn;
      if HasPrefix(key, prefix) {
        if (key !in table || table[key].txn < txn) && Visible(r, txn) {
          table := table[key := ValueTxn(e.value.value, txn)];
        }
      } else if Past(key, prefix) {
        return Ok(table);
      }
      i := i + |EncodeEntry(e.value)|;
      n := n + 1;
    }
    ScanNext(buf, es, n);
    return Ok(table);
  }

  /** What the map must say about key k, given the versions seen so far. */
  ghost predicate KeyExact(vs: set<Version>, k: Bytes, r: Reader, m: map<Bytes, ValueTxn>) {
    if k in m then exists v :: Picks(vs, k, r, v) && m[k] == ValueTxn(v.value, v.txn)
    else NoCandidate(vs, k, r)
  }

  lemma AbsorbOne(m: map<Bytes, ValueTxn>, e: Version, prefix: Bytes, r: Reader, vs: set<Version>, k: Bytes)
    requires HasPrefix(k, prefix) && KeyExact(vs, k, r, m)
    ensures KeyExact(vs + {e}, k, r, Absorb(m, e, prefix, r))
  {
  }

  /** In whatever order entries and files come, the map ends with the newest visible version. */
  lemma {:induction false} AbsorbKey(m: map<Bytes, ValueTxn>, es: seq<Version>, prefix: Bytes, r: Reader, vs: set<Version>, k: Bytes)
    requires HasPrefix(k, prefix) && KeyExact(vs, k, r, m)
    ensures KeyExact(vs + Elems(es), k, r, AbsorbAll(m, es, prefix, r))
  {
    if es == [] {
      assert vs + Elems(es) == vs;
    } else {
      var init, last := es[..|es| - 1], es[|es| - 1];
      AbsorbKey(m, init, prefix, r, vs, k);
      AbsorbOne(AbsorbAll(m, init, prefix, r), last, prefix, r, vs + Elems(init), k);
      assert es == init + [last];
      assert vs + Elems(es) == vs + Elems(init) + {last};
    }
  }

  /** Whatever the map holds carries the prefix and has a visible version among those seen. */
  ghost predicate Sound(vs: set<Version>, prefix: Bytes, r: Reader, m: map<Bytes, ValueTxn>) {
    forall k :: k in m ==> HasPrefix(k, prefix) && !NoCandidate(vs, k, r)
  }

  lemma SoundGrows(vs: set<Version>, ws: set<Version>, prefix: Bytes, r: Reader, m: map<Bytes, ValueTxn>)
    requires Sound(vs, prefix, r, m) && vs <= ws
    ensures Sound(ws, prefix, r, m)
  {
  }

  lemma {:induction false} AbsorbSound(m: map<Bytes, ValueTxn>, es: seq<Version>, prefix: Bytes, r: Reader, vs: set<Version>)
    requires Sound(vs, prefix, r, m) && forall e :: e in es ==> e in vs
    ensures Sound(vs, prefix, r, AbsorbAll(m, es, prefix, r))
  {
    if es == [] {
    } else {
      var last := es[|es| - 1];
      AbsorbSound(m, es[..|es| - 1], prefix, r, vs);
      assert Visible(r, last.txn) ==> last in vs && Candidate(last.key, r, last);
    }
  }

  /* ---------- Why starting late and stopping early is exact ---------- */

  lemma AboveWithoutPrefix(prefix: Bytes, s: Bytes, later: Bytes)
    requires Less(prefix, s) && !HasPrefix(s, prefix) && AtMost(s, later)
    ensures !HasPrefix(later, prefix)
  {
    if !Less(prefix, Clip(s, |prefix|)) {
      BeforePrefix(prefix, s, prefix);
      LessAsymmetric(s, prefix);
    }
    PastPrefix(prefix, s, later);
  }

  /** A file whose first key is above the prefix and lacks it has no key with the prefix. */
  lemma SkippedFile(es: seq<Version>, prefix: Bytes)
    requires Sorted(es) && (es != [] ==> Less(prefix, es[0].key) && !HasPrefix(es[0].key, prefix))
    ensures forall i :: 0 <= i < |es| ==> !HasPrefix(es[i].key, prefix)
  {
    forall i | 0 <= i < |es| ensures !HasPrefix(es[i].key, prefix) {
      SortedKeyOrder(es, 0, i);
      AboveWithoutPrefix(prefix, es[0].key, es[i].key);
    }
  }

  /** Keys with the prefix, other than the prefix itself, all lie between the chosen block and
      the early exit. */
  lemma WindowIsEnough(es: seq<Version>, p: nat, prefix: Bytes, k: Bytes, i: nat)
    requires Sorted(es) && p <= |es| && i < |es|
    requires forall j :: 0 <= j < p ==> AtMost(es[j].key, prefix)
    requires HasPrefix(k, prefix) && k != prefix && es[i].key == k
    ensures p <= i < p + FirstPast(es[p..], prefix)
  {
    PrefixAtMost(prefix, k);
    if i < p {
      LessAsymmetric(prefix, k);
    }
    var n := FirstPast(es[p..], prefix);
    if p + n <= i {
      var stop := es[p..][n].key;
      assert stop == es[p + n].key;
      SortedKeyOrder(es, p + n, i);
      PastPrefix(prefix, stop, k);
    }
  }

  lemma WindowElems(es: seq<Version>, p: nat, prefix: Bytes, r: Reader, m: map<Bytes, ValueTxn>, vs: set<Version>, k: Bytes)
    requires Sorted(es) && p <= |es|
    requires forall j :: 0 <= j < p ==> AtMost(es[j].key, prefix)
    requires HasPrefix(k, prefix) && k != prefix && KeyExact(vs, k, r, m)
    ensures KeyExact(vs + Elems(es), k, r, AbsorbAll(m, es[p..][..FirstPast(es[p..], prefix)], prefix, r))
  {
    var n := FirstPast(es[p..], prefix);
    var window := es[p..][..n];
    AbsorbKey(m, window, prefix, r, vs, k);
    assert forall v :: v in window ==> v in es;
    forall v | v in Elems(es) && v.key == k ensures v in Elems(window) {
      var i :| 0 <= i < |es| && es[i] == v;
      WindowIsEnough(es, p, prefix, k, i);
      assert window[i - p] == v;
    }
    SameVersionsOfKey(vs + Elems(window), vs + Elems(es), k, r, AbsorbAll(m, window, prefix, r));
  }

  lemma SameVersionsOfKey(vs: set<Version>, ws: set<Version>, k: Bytes, r: Reader, m: map<Bytes, ValueTxn>)
    requires KeyExact(vs, k, r, m) && vs <= ws
    requires forall v :: v in ws && v.key == k ==> v in vs
    ensures KeyExact(ws, k, r, m)
  {
  }

  /* ---------- The merge loop of a compaction ---------- */

  function High(es: seq<Version>, m: nat): seq<Version> {
    if es == [] then []
    else
      var rest, last := High(es[..|es| - 1], m), es[|es| - 1];
      if last.txn > m then rest + [last] else rest
  }

  /** The map holds, for each key, the newest version at or below the horizon seen so far. */
  ghost predicate LowExact(low: map<Bytes, ValueTxn>, vs: set<Version>, m: nat) {
    && (forall k :: k in low ==>
          && Version(k, low[k].value, low[k].txn) in vs && low[k].txn <= m
          && forall w :: w in vs && w.key == k && w.txn <= m ==> w.txn <= low[k].txn)
    && (forall w :: w in vs && w.txn <= m ==> w.key in low)
  }

  lemma LowStep(low: map<Bytes, ValueTxn>, vs: set<Version>, m: nat, e: Version)
    requires LowExact(low, vs, m)
    ensures LowExact(if e.txn <= m && (e.key !in low || low[e.key].txn < e.txn) then low[e.key := ValueTxn(e.value, e.txn)] else low,
                     vs + {e}, m)
  {
  }

  lemma {:induction false} HighElems(es: seq<Version>, m: nat)
    ensures forall v :: v in High(es, m) <==> v in es && v.txn > m
  {
    if es == [] {
    } else {
      HighElems(es[..|es| - 1], m);
      assert es == es[..|es| - 1] + [es[|es| - 1]];
    }
  }

  /** The data region of a file, if its footer and entries are sound. */
  function FileEntries(file: Bytes): Option<seq<Version>> {
    if |file| < 4 then None
    else
      var at := FromU32(file[|file| - 4..]);
      if at > |file| then None
      else if Stop(file[..at], 0) == at then Some(Entries(file[..at], 0)) else None
  }

  /** A file can be merged, as these entries, exactly if the bytes up to the offset in its last four are
      the entries back to back. */
  lemma FileEntriesExactly(file: Bytes, es: seq<Version>)
    ensures FileEntries(file) == Some(es) <==>
              && |file| >= 4
              && var at := FromU32(file[|file| - 4..]);
                 at <= |file| && AllFit(es) && file[..at] == EncodeAll(es)
  {
    hide FromU32, EncodeAll, Entries, Stop, AllFit;
    if |file| >= 4 && FromU32(file[|file| - 4..]) <= |file| {
      var at := FromU32(file[|file| - 4..]);
      var data := file[..at];
      assert data[0..] == data;
      EntriesAreEncoded(data, 0);
      assert Stop(data, 0) == at ==> data[0..Stop(data, 0)] == data;
      if AllFit(es) && data == EncodeAll(es) { EntriesEncoded(data, 0, es); }
    }
  }

  /** One file of buildCompactedEntries. */
  method MergeFile(file: Bytes, m: nat, low0: map<Bytes, ValueTxn>, high0: seq<Version>, ghost vs: set<Version>)
    returns (ok: bool, low: map<Bytes, ValueTxn>, high: seq<Version>)
    requires LowExact(low0, vs, m)
    ensures ok <==> FileEntries(file).Some?
    ensures ok ==> var es := FileEntries(file).value;
                   high == high0 + High(es, m) && LowExact(low, vs + Elems(es), m)
  {
    low, high := low0, high0;
    if |file| < 4 { return false, low, high; }
    var at := FromU32(file[|file| - 4..]);
    if at > |file| { return false, low, high; }
    var buf := file[..at];
    ghost var es := Entries(buf, 0);
    ghost var n := 0;
    var i := 0;
    assert es[..0] == [] && high0 + High([], m) == high0 && vs + Elems([]) == vs;
    while i < |buf|
      invariant n <= |es| && i == Offset(es, n) && i <= |buf|
      invariant high == high0 + High(es[..n], m)
      invariant LowExact(low, vs + Elems(es[..n]), m)
      decreases |buf| - i
    {
      ScanNext(buf, es, n);
      var e := DecodeEntry(buf, i);
      if e.None? { return false, low, high; }
      MergeStep(es, n, m, low, vs, high0);
      if e.value.txn <= m {
        if e.value.key !in low || low[e.value.key].txn < e.value.txn {
          low := low[e.value.key := ValueTxn(e.value.value, e.value.txn)];
        }
      } else {
        high := high + [e.value];
      }
      i := i + |EncodeEntry(e.value)|;
      n := n + 1;
    }
    ScanNext(buf, es, n);
    EndsAt(buf, es, n);
    ok := true;
  }

  lemma EndsAt(buf: Bytes, es: seq<Version>, n: nat)
    requires es == Entries(buf, 0) && n <= |es| && Offset(es, n) == |buf|
    ensures n == |es| && es[..n] == es && Stop(buf, 0) == |buf|
  {
    ScanNext(buf, es, n);
    if n < |es| { OffsetStep(es, n); }
  }

  lemma MergeStep(es: seq<Version>, n: nat, m: nat, low: map<Bytes, ValueTxn>, vs: set<Version>, high0: seq<Version>)
    requires n < |es| && LowExact(low, vs + Elems(es[..n]), m)
    ensures var e := es[n];
            && High(es[..n + 1], m) == (if e.txn > m then High(es[..n], m) + [e] else High(es[..n], m))
            && high0 + (High(es[..n], m) + [e]) == high0 + High(es[..n], m) + [e]
            && LowExact(if e.txn <= m && (e.key !in low || low[e.key].txn < e.txn) then low[e.key := ValueTxn(e.value, e.txn)] else low,
                        vs + Elems(es[..n + 1]), m)
  {
    var e := es[n];
    assert es[..n + 1] == es[..n] + [e];
    assert es[..n + 1][..n] == es[..n];
    LowStep(low, vs + Elems(es[..n]), m, e);
    assert vs + Elems(es[..n + 1]) == vs + Elems(es[..n]) + {e};
  }

  ghost function LowSet(low: map<Bytes, ValueTxn>, keys: set<Bytes>): set<Version>
    requires keys <= low.Keys
  {
    set k | k in keys :: Version(k, low[k].value, low[k].txn)
  }

  lemma LowSetStep(low: map<Bytes, ValueTxn>, done: set<Bytes>, k: Bytes)
    requires done <= low.Keys && k in low && k !in done
    ensures multiset(LowSet(low, done + {k})) == multiset(LowSet(low, done)) + multiset{Version(k, low[k].value, low[k].txn)}
  {
  }

  /** Appends the map's versions in some iteration order. */
  method AppendLow(high: seq<Version>, low: map<Bytes, ValueTxn>) returns (out: seq<Version>)
    ensures multiset(out) == multiset(high) + multiset(LowSet(low, low.Keys))
  {
    out := high;
    var keys := low.Keys;
    ghost var done: set<Bytes> := {};
    assert LowSet(low, {}) == {};
    while keys != {}
      invariant done + keys == low.Keys && done * keys == {}
      invariant multiset(out) == multiset(high) + multiset(LowSet(low, done))
      decreases keys
    {
      var k :| k in keys;
      var e := Version(k, low[k].value, low[k].txn);
      LowSetStep(low, done, k);
      out := out + [e];
      keys := keys - {k};
      done := done + {k};
    }
    assert done == low.Keys;
  }

  /** What was merged, as a set, is exactly what a compaction keeps. */
  lemma MergedIsCompact(vs: set<Version>, m: nat, low: map<Bytes, ValueTxn>, out: seq<Version>, high: seq<Version>)
    requires Functional(vs) && LowExact(low, vs, m)
    requires forall v :: v in high <==> v in vs && v.txn > m
    requires multiset(out) == multiset(high) + multiset(LowSet(low, low.Keys))
    ensures Elems(out) == Compact(vs, m)
  {
    assert forall v :: v in out <==> v in multiset(out);
    assert forall v :: v in high <==> v in multiset(high);
    assert forall v :: v in out <==> v in high || v in LowSet(low, low.Keys);
    forall v | v in Compact(vs, m) ensures v in out {
      if v.txn <= m {
        assert v.key in low;
        assert Version(v.key, low[v.key].value, low[v.key].txn) in vs;
      }
    }
  }

  /** Nothing is written more often than it was read. */
  lemma MergedIsWithin(all: seq<Version>, m: nat, low: map<Bytes, ValueTxn>, out: seq<Version>, high: seq<Version>)
    requires LowExact(low, Elems(all), m) && high == High(all, m)
    requires multiset(out) == multiset(high) + multiset(LowSet(low, low.Keys))
    ensures multiset(out) <= multiset(all)
  {
    HighCount(all, m);
    HighElems(all, m);
    forall v ensures multiset(out)[v] <= multiset(all)[v] {
      if v in LowSet(low, low.Keys) {
        assert v in all && v.txn <= m && v !in high;
        assert multiset(all)[v] >= 1 && multiset(high)[v] == 0;
      }
    }
  }

  lemma {:induction false} HighCount(es: seq<Version>, m: nat)
    ensures multiset(High(es, m)) <= multiset(es)
  {
    if es == [] {
    } else {
      HighCount(es[..|es| - 1], m);
      assert es == es[..|es| - 1] + [es[|es| - 1]];
    }
  }

  lemma {:induction false} HighSplit(a: seq<Version>, b: seq<Version>, m: nat)
    ensures High(a + b, m) == High(a, m) + High(b, m)
  {
    if b == [] {
      assert a + b == a;
    } else {
      assert (a + b)[..|a + b| - 1] == a + b[..|b| - 1];
      HighSplit(a, b[..|b| - 1], m);
    }
  }

  /** A part of a list of entries takes no more bytes than the list, in whatever order. */
  lemma WithoutOne(b: seq<Version>, j: nat)
    requires j < |b|
    ensures |EncodeAll(b)| == |EncodeAll(b[..j] + b[j + 1..])| + |EncodeEntry(b[j])|
  {
    hide EncodeAll, EncodeEntry;
    assert b == b[..j] + [b[j]] + b[j + 1..];
    EncodeSplit(b[..j], b[j + 1..]);
    EncodeSplit(b[..j] + [b[j]], b[j + 1..]);
    EncodeSplit(b[..j], [b[j]]);
    EncodeOne(b[j]);
  }

  lemma {:induction false} PartIsSmaller(a: seq<Version>, b: seq<Version>)
    requires multiset(a) <= multiset(b)
    ensures |EncodeAll(a)| <= |EncodeAll(b)|
  {
    hide EncodeAll, EncodeEntry;
    if a == [] {
      EncodeEmptyIff(a);
    } else {
      var init, x := a[..|a| - 1], a[|a| - 1];
      assert a == init + [x];
      assert x in multiset(b);
      var j :| 0 <= j < |b| && b[j] == x;
      var b' := b[..j] + b[j + 1..];
      assert b == b[..j] + [x] + b[j + 1..];
      assert multiset(b) == multiset(b') + multiset{x};
      assert multiset(a) == multiset(init) + multiset{x};
      forall v ensures multiset(init)[v] <= multiset(b')[v] {
        assert multiset(a)[v] <= multiset(b)[v];
      }
      PartIsSmaller(init, b');
      WithoutOne(b, j);
      EncodeLast(a);
    }
  }

  /* ---------- Sorting ---------- */

  /** sortedSsTableEntries; any sort gives a sorted permutation. */
  function InsertSorted(es: seq<Version>, e: Version): seq<Version> {
    if es == [] || Before(e, es[0]) then [e] + es else [es[0]] + InsertSorted(es[1..], e)
  }

  function SortEntries(es: seq<Version>): seq<Version> {
    if es == [] then [] else InsertSorted(SortEntries(es[..|es| - 1]), es[|es| - 1])
  }

  lemma NotBeforeTransitive(a: Version, b: Version, c: Version)
    requires (Before(a, b) || SameSlot(a, b)) && (Before(b, c) || SameSlot(b, c))
    ensures Before(a, c) || SameSlot(a, c)
  {
    if Before(a, b) && Before(b, c) { BeforeTransitive(a, b, c); }
  }

  lemma {:induction false} InsertSortedIsSorted(es: seq<Version>, e: Version)
    requires Sorted(es)
    ensures Sorted(InsertSorted(es, e)) && multiset(InsertSorted(es, e)) == multiset(es) + multiset{e}
  {
    if es == [] {
    } else if Before(e, es[0]) {
      forall i | 0 <= i < |es| ensures Before(e, es[i]) || SameSlot(e, es[i]) {
        if i > 0 { NotBeforeTransitive(e, es[0], es[i]); }
      }
    } else {
      var tail := es[1..];
      assert es == [es[0]] + tail;
      InsertSortedIsSorted(tail, e);
      var up := InsertSorted(tail, e);
      BeforeTotal(e, es[0]);
      forall i | 0 <= i < |up| ensures Before(es[0], up[i]) || SameSlot(es[0], up[i]) {
        assert up[i] in multiset(up);
        assert up[i] in tail || up[i] == e;
        if up[i] in tail {
          var j :| 0 <= j < |tail| && tail[j] == up[i];
          assert es[j + 1] == up[i];
        }
      }
    }
  }

  lemma NoneIsSorted()
    ensures Sorted([])
  {
  }

  lemma {:induction false} SortEntriesIsSorted(es: seq<Version>)
    ensures Sorted(SortEntries(es)) && multiset(SortEntries(es)) == multiset(es)
    ensures forall v :: v in SortEntries(es) <==> v in es
  {
    hide Sorted, InsertSorted;
    if es == [] {
      NoneIsSorted();
    } else {
      var init, last := es[..|es| - 1], es[|es| - 1];
      SortEntriesIsSorted(init);
      InsertSortedIsSorted(SortEntries(init), last);
      assert es == init + [last];
    }
    assert forall v :: v in SortEntries(es) <==> v in multiset(SortEntries(es));
    assert forall v :: v in es <==> v in multiset(es);
  }
}
