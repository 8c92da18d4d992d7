/** The in-memory sorted write buffer (memtable/memtable.go). The B-tree is a sorted
    sequence of versions; its operations are specified by functions of that sequence. */
module Memtables {
  import opened Bytes
  import opened Mvcc

  const SIZE_LIMIT: nat := 1000

  /* ---------- Specification functions ---------- */

  /** ReplaceOrInsert: e takes its slot, replacing a version already there. */
  function Upsert(es: seq<Version>, e: Version): seq<Version> {
    if es == [] then [e]
    else if Before(e, es[0]) then [e] + es
    else if SameSlot(e, es[0]) then [e] + es[1..]
    else [es[0]] + Upsert(es[1..], e)
  }

  /** Bytes the flush trigger accounts for: every key and value held. */
  function Size(es: seq<Version>): nat {
    if es == [] then 0 else |es[0].key| + |es[0].value| + Size(es[1..])
  }

  /** The account counts every key and every value once. */
  lemma {:induction false} SizeJoin(a: seq<Version>, b: seq<Version>)
    ensures Size(a + b) == Size(a) + Size(b)
    ensures forall e: Version :: Size([e]) == |e.key| + |e.value|
  {
    if a == [] {
      assert a + b == b;
    } else {
      assert (a + b)[1..] == a[1..] + b;
      SizeJoin(a[1..], b);
    }
  }

  ghost function Slot(es: seq<Version>, e: Version): set<Version> {
    set x | x in es && SameSlot(x, e)
  }

  lemma {:induction false} UpsertElems(es: seq<Version>, e: Version)
    requires StrictlySorted(es)
    ensures StrictlySorted(Upsert(es, e))
    ensures Elems(Upsert(es, e)) == Elems(es) - Slot(es, e) + {e}
  {
    if es == [] {
    } else {
      var head, tail := es[0], es[1..];
      assert es == [head] + tail;
      BeforeTotal(e, head);
      forall i | 0 <= i < |tail| ensures Before(head, tail[i]) { assert tail[i] == es[i + 1]; }
      if Before(e, head) {
        UpsertAbove(es, e);
      } else if SameSlot(e, head) {
        forall x | x in tail ensures !SameSlot(x, e) && Before(e, x) { BeforeTotal(head, x); }
      } else {
        UpsertElems(tail, e);
        var up := Upsert(tail, e);
        forall i | 0 <= i < |up| ensures Before(head, up[i]) {
          assert up[i] in Elems(up);
        }
        assert Upsert(es, e) == [head] + up;
      }
    }
  }

  lemma UpsertAbove(es: seq<Version>, e: Version)
    requires StrictlySorted(es) && es != [] && Before(e, es[0])
    ensures StrictlySorted([e] + es) && Slot(es, e) == {} && Elems([e] + es) == Elems(es) + {e}
  {
    forall i | 0 <= i < |es| ensures Before(e, es[i]) {
      if i > 0 { BeforeTransitive(e, es[0], es[i]); }
    }
    forall x | x in es ensures !SameSlot(x, e) { BeforeTotal(e, x); }
  }

  /** Upsert past a stretch that lies entirely before e. */
  lemma {:induction false} UpsertAfter(es: seq<Version>, e: Version, i: nat)
    requires i <= |es|
    requires forall j :: 0 <= j < i ==> Before(es[j], e)
    ensures Upsert(es, e) == es[..i] + Upsert(es[i..], e)
  {
    if i == 0 {
      assert es[0..] == es;
    } else {
      BeforeTotal(es[0], e);
      forall j | 0 <= j < i - 1 ensures Before(es[1..][j], e) { assert es[1..][j] == es[j + 1]; }
      UpsertAfter(es[1..], e, i - 1);
      assert es[1..][i - 1..] == es[i..];
      assert [es[0]] + es[1..][..i - 1] == es[..i];
    }
  }

  lemma {:induction false} SizeSplit(a: seq<Version>, b: seq<Version>)
    ensures Size(a + b) == Size(a) + Size(b)
  {
    if a == [] {
      assert a + b == b;
    } else {
      SizeSplit(a[1..], b);
      assert a + b == [a[0]] + (a[1..] + b);
    }
  }

  lemma ReplaceAt(es: seq<Version>, e: Version, i: nat)
    requires i < |es| && SameSlot(es[i], e)
    requires forall j :: 0 <= j < i ==> Before(es[j], e)
    ensures Upsert(es, e) == es[..i] + [e] + es[i + 1..]
    ensures Size(Upsert(es, e)) == Size(es) + |e.value| - |es[i].value|
  {
    UpsertAfter(es, e, i);
    BeforeTotal(e, es[i]);
    assert es[i..][1..] == es[i + 1..];
    assert es == es[..i] + es[i..];
    SizeSplit(es[..i], es[i..]);
    SizeSplit(es[..i], [e] + es[i + 1..]);
    assert Size([e] + es[i + 1..]) == |e.key| + |e.value| + Size(es[i + 1..]);
    assert es[..i] + [e] + es[i + 1..] == es[..i] + ([e] + es[i + 1..]);
  }

  lemma UpsertFront(es: seq<Version>, e: Version)
    requires es == [] || Before(e, es[0])
    ensures Upsert(es, e) == [e] + es
  {
  }

  lemma SizeFront(es: seq<Version>, e: Version)
    ensures Size([e] + es) == |e.key| + |e.value| + Size(es)
  {
  }

  lemma InsertAt(es: seq<Version>, e: Version, i: nat)
    requires i <= |es|
    requires forall j :: 0 <= j < i ==> Before(es[j], e)
    requires i < |es| ==> !Before(es[i], e) && !SameSlot(es[i], e)
    ensures Upsert(es, e) == es[..i] + [e] + es[i..]
    ensures Size(Upsert(es, e)) == Size(es) + |e.key| + |e.value|
  {
    hide Upsert, Size, Before;
    UpsertAfter(es, e, i);
    if i < |es| { BeforeTotal(e, es[i]); }
    UpsertFront(es[i..], e);
    assert es == es[..i] + es[i..];
    SizeSplit(es[..i], es[i..]);
    SizeSplit(es[..i], [e] + es[i..]);
    SizeFront(es[i..], e);
    assert es[..i] + [e] + es[i..] == es[..i] + ([e] + es[i..]);
  }

  /** The versions a scan of keys with prefix p reports: per key, the newest visible one. */
  ghost predicate ExactScan(vs: set<Version>, p: Bytes, r: Reader, m: map<Bytes, Bytes>) {
    && (forall k :: k in m ==> HasPrefix(k, p))
    && (forall k :: HasPrefix(k, p) ==> Reads(vs, k, r, if k in m then Some(m[k]) else None))
  }

  /* ---------- The class ---------- */

  class Memtable {
    var entries: seq<Version>
    var size: int

    ghost predicate Valid()
      reads this
    {
      StrictlySorted(entries) && size == Size(entries)
    }

    constructor ()
      ensures Valid() && entries == []
    {
      entries := [];
      size := 0;
    }

    /** First position at or above the pivot (key, 0), where AscendGreaterOrEqual starts. */
    method Seek(key: Bytes) returns (i: nat)
      requires Valid()
      ensures i <= |entries|
      ensures forall j :: 0 <= j < i ==> Less(entries[j].key, key)
      ensures forall j :: i <= j < |entries| ==> AtMost(key, entries[j].key)
    {
      i := 0;
      while i < |entries| && Before(entries[i], Version(key, [], 0))
        invariant i <= |entries|
        invariant forall j :: 0 <= j < i ==> Less(entries[j].key, key)
      {
        i := i + 1;
      }
      if i < |entries| {
        BeforeTotal(entries[i], Version(key, [], 0));
        forall j | i <= j < |entries| ensures AtMost(key, entries[j].key) {
          if j > i {
            assert Before(entries[i], entries[j]);
            if entries[i].key != key && entries[i].key != entries[j].key {
              LessTransitive(key, entries[i].key, entries[j].key);
            }
          }
        }
      }
    }

    /** The newest version of key visible to r, although the walk starts in the middle
        of the tree and stops at the first other key. */
    method Get(key: Bytes, r: Reader) returns (value: Bytes, found: bool)
      requires Valid()
      ensures found == LastVisible(entries, key, r).Some?
      ensures found ==> value == LastVisible(entries, key, r).value.value
      ensures Reads(Elems(entries), key, r, if found then Some(value) else None)
    {
      hide LastVisible, Reads, StrictlySorted, Elems;
      value, found := [], false;
      var start := Seek(key);
      var i := start;
      ghost var best: Option<Version> := None;
      SkipPrefix(entries, key, r, start);
      while i < |entries| && entries[i].key == key
        invariant start <= i <= |entries|
        invariant best == LastVisible(entries[..i], key, r)
        invariant found == best.Some? && (found ==> value == best.value.value)
      {
        LastVisibleStep(entries, i, key, r);
        if Visible(r, entries[i].txn) {
          value := entries[i].value;
          found := true;
          best := Some(entries[i]);
        }
        i := i + 1;
      }
      KeyEnds(entries, key, i);
      SkipSuffix(entries, key, r, i);
      LastVisibleReads(entries, key, r);
    }

    /** ReplaceOrInsert with the size account kept exact. */
    method Put(key: Bytes, value: Bytes, txn: TxnId)
      requires Valid()
      modifies this
      ensures Valid()
      ensures entries == Upsert(old(entries), Version(key, value, txn))
    {
      var e := Version(key, value, txn);
      UpsertElems(entries, e);
      var i := 0;
      while i < |entries| && Before(entries[i], e)
        invariant i <= |entries|
        invariant forall j :: 0 <= j < i ==> Before(entries[j], e)
      {
        i := i + 1;
      }
      if i < |entries| && SameSlot(entries[i], e) {
        ReplaceAt(entries, e, i);
        size := size + |value| - |entries[i].value|;
        entries := entries[..i] + [e] + entries[i + 1..];
      } else {
        InsertAt(entries, e, i);
        size := size + |key| + |value|;
        entries := entries[..i] + [e] + entries[i..];
      }
    }

    /** All keys with the prefix that have a visible version, each with its newest one. */
    method PrefixScan(prefix: Bytes, r: Reader) returns (found: map<Bytes, Bytes>)
      requires Valid()
      ensures ExactScan(Elems(entries), prefix, r, found)
    {
      hide ExactScan, StrictlySorted, Elems, HasPrefix;
      found := map[];
      var start := Seek(prefix);
      var i := start;
      ScanStart(entries, start, prefix, r);
      while i < |entries| && HasPrefix(entries[i].key, prefix)
        invariant start <= i <= |entries|
        invariant ExactScan(Elems(entries[..i]), prefix, r, found)
      {
        ScanStep(entries, i, prefix, r, found);
        if Visible(r, entries[i].txn) {
          found := found[entries[i].key := entries[i].value];
        }
        i := i + 1;
      }
      ScanTail(entries, i, prefix, r, found);
    }

    method ShouldFlush() returns (flush: bool)
      requires Valid()
      ensures flush <==> Size(entries) >= 1000
    {
      flush := size >= SIZE_LIMIT;
    }

    method Clear()
      modifies this
      ensures Valid() && entries == []
    {
      entries := [];
      size := 0;
    }
  }

  /* ---------- Lemmas about the walks ---------- */

  lemma SkipPrefix(es: seq<Version>, k: Bytes, r: Reader, i: nat)
    requires i <= |es|
    requires forall j :: 0 <= j < i ==> es[j].key != k || Less(es[j].key, k)
    ensures LastVisible(es[..i], k, r).None?
  {
    forall e | e in es[..i] ensures e.key != k {
      LessIrreflexive(k);
    }
  }

  /** Versions of other keys after position i do not change what the scan kept. */
  lemma {:induction false} SkipSuffix(es: seq<Version>, k: Bytes, r: Reader, i: nat)
    requires i <= |es|
    requires forall j :: i <= j < |es| ==> es[j].key != k
    ensures LastVisible(es, k, r) == LastVisible(es[..i], k, r)
  {
    if i == |es| {
      assert es[..i] == es;
    } else {
      var init := es[..|es| - 1];
      SkipSuffix(init, k, r, i);
      assert init[..i] == es[..i];
    }
  }

  lemma LastVisibleStep(es: seq<Version>, i: nat, k: Bytes, r: Reader)
    requires i < |es|
    ensures LastVisible(es[..i + 1], k, r) == if Candidate(k, r, es[i]) then Some(es[i]) else LastVisible(es[..i], k, r)
  {
    assert es[..i + 1][..i] == es[..i];
  }

  lemma LastVisibleReads(es: seq<Version>, k: Bytes, r: Reader)
    requires StrictlySorted(es)
    ensures var o := LastVisible(es, k, r); Reads(Elems(es), k, r, if o.Some? then Some(o.value.value) else None)
  {
  }

  /** In a sorted run no version of k lies at or behind the first key above k. */
  lemma KeyEnds(es: seq<Version>, k: Bytes, i: nat)
    requires StrictlySorted(es) && i <= |es|
    requires i < |es| ==> AtMost(k, es[i].key) && es[i].key != k
    ensures forall j :: i <= j < |es| ==> es[j].key != k
  {
    forall j | i <= j < |es| ensures es[j].key != k {
      if j > i {
        assert Before(es[i], es[j]);
        if es[j].key == k { LessAsymmetric(k, es[i].key); }
      }
    }
  }

  /** Below the prefix there is nothing to find. */
  lemma ScanStart(es: seq<Version>, i: nat, p: Bytes, r: Reader)
    requires i <= |es| && forall j :: 0 <= j < i ==> Less(es[j].key, p)
    ensures ExactScan(Elems(es[..i]), p, r, map[])
  {
    forall j | 0 <= j < i ensures !HasPrefix(es[j].key, p) {
      if HasPrefix(es[j].key, p) {
        PrefixAtMost(p, es[j].key);
        LessAsymmetric(es[j].key, p);
      }
    }
    assert forall k :: HasPrefix(k, p) ==> NoCandidate(Elems(es[..i]), k, r);
  }

  /** One more version extends an exact scan. */
  lemma ScanStep(es: seq<Version>, i: nat, p: Bytes, r: Reader, m: map<Bytes, Bytes>)
    requires StrictlySorted(es) && i < |es| && HasPrefix(es[i].key, p)
    requires ExactScan(Elems(es[..i]), p, r, m)
    ensures ExactScan(Elems(es[..i + 1]), p, r,
                      if Visible(r, es[i].txn) then m[es[i].key := es[i].value] else m)
  {
  }

  /** From the first key at or above the prefix that does not carry it, no key carries it. */
  lemma ScanTail(es: seq<Version>, i: nat, p: Bytes, r: Reader, m: map<Bytes, Bytes>)
    requires StrictlySorted(es) && i <= |es|
    requires i < |es| ==> AtMost(p, es[i].key) && !HasPrefix(es[i].key, p)
    requires ExactScan(Elems(es[..i]), p, r, m)
    ensures ExactScan(Elems(es), p, r, m)
  {
    forall j | i <= j < |es| ensures !HasPrefix(es[j].key, p) {
      var s := es[i].key;
      if !Less(p, Clip(s, |p|)) {
        BeforePrefix(p, s, p);
        LessAsymmetric(s, p);
      }
      assert j > i ==> Before(es[i], es[j]);
      PastPrefix(p, s, es[j].key);
    }
    assert es == es[..i] + es[i..];
    forall k | HasPrefix(k, p) ensures Reads(Elems(es), k, r, if k in m then Some(m[k]) else None) {
      assert forall v :: v in Elems(es) && Candidate(k, r, v) ==> v in Elems(es[..i]);
      assert Reads(Elems(es[..i]), k, r, if k in m then Some(m[k]) else None);
      if k in m {
        var v :| Picks(Elems(es[..i]), k, r, v) && v.value == m[k];
        assert Picks(Elems(es), k, r, v);
      }
    }
  }
}
