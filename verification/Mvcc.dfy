/** Versions, readers and the one visibility test every read path shares
    (memtable/memtable.go, sstable/sstable.go). */
module Mvcc {
  import opened Bytes

  type TxnId = nat

  datatype Version = Version(key: Bytes, value: Bytes, txn: TxnId)

  /** A transaction as the read paths see it: its id and the ids active when it began. */
  datatype Reader = Reader(id: TxnId, snapshot: set<TxnId>)

  predicate Visible(r: Reader, txn: TxnId) {
    txn == r.id || (txn < r.id && txn !in r.snapshot)
  }

  /* ---------- The reference meaning of a read ---------- */

  predicate Candidate(k: Bytes, r: Reader, v: Version) {
    v.key == k && Visible(r, v.txn)
  }

  /** v is the version of k that r must read from vs: visible, and no visible version is newer. */
  ghost predicate Picks(vs: set<Version>, k: Bytes, r: Reader, v: Version) {
    && v in vs && Candidate(k, r, v)
    && forall w :: w in vs && Candidate(k, r, w) ==> w.txn <= v.txn
  }

  ghost predicate NoCandidate(vs: set<Version>, k: Bytes, r: Reader) {
    forall v :: v in vs ==> !Candidate(k, r, v)
  }

  /** The value r must read for k, or None when it must find nothing. */
  ghost predicate Reads(vs: set<Version>, k: Bytes, r: Reader, o: Option<Bytes>) {
    match o
    case None => NoCandidate(vs, k, r)
    case Some(x) => exists v :: Picks(vs, k, r, v) && v.value == x
  }

  /** A (key, txnId) pair determines the value. */
  ghost predicate Functional(vs: set<Version>) {
    forall v, w :: v in vs && w in vs && v.key == w.key && v.txn == w.txn ==> v == w
  }

  lemma PickExists(vs: set<Version>, k: Bytes, r: Reader, c: Version)
    requires c in vs && Candidate(k, r, c)
    ensures exists v :: Picks(vs, k, r, v) && c.txn <= v.txn
    decreases |vs|
  {
    if w :| w in vs && Candidate(k, r, w) && c.txn < w.txn {
      var rest := vs - {c};
      PickExists(rest, k, r, w);
      var v :| Picks(rest, k, r, v) && w.txn <= v.txn;
      assert Picks(vs, k, r, v);
    } else {
      assert Picks(vs, k, r, c);
    }
  }

  lemma ReadsUnique(vs: set<Version>, k: Bytes, r: Reader, o: Option<Bytes>, p: Option<Bytes>)
    requires Functional(vs) && Reads(vs, k, r, o) && Reads(vs, k, r, p)
    ensures o == p
  {
  }

  /* ---------- Sorted runs of versions ---------- */

  /** Entry.Less (memtable/memtable.go) and the comparison of sortedSsTableEntries. */
  predicate Before(a: Version, b: Version) {
    if a.key == b.key then a.txn < b.txn else Less(a.key, b.key)
  }

  predicate SameSlot(a: Version, b: Version) {
    a.key == b.key && a.txn == b.txn
  }

  lemma BeforeTotal(a: Version, b: Version)
    ensures Before(a, b) || Before(b, a) || SameSlot(a, b)
    ensures Before(a, b) ==> !Before(b, a) && !SameSlot(a, b)
  {
    LessTotal(a.key, b.key);
    if Less(a.key, b.key) { LessAsymmetric(a.key, b.key); }
    if Less(b.key, a.key) { LessAsymmetric(b.key, a.key); }
  }

  lemma BeforeTransitive(a: Version, b: Version, c: Version)
    requires Before(a, b) && Before(b, c)
    ensures Before(a, c)
  {
    if a.key != b.key && b.key != c.key {
      LessTransitive(a.key, b.key, c.key);
      LessIrreflexive(a.key);
      if a.key == c.key { LessAsymmetric(a.key, b.key); }
    }
  }

  /** Ascending by key and then txnId; a file may hold a slot twice. */
  ghost predicate Sorted(es: seq<Version>) {
    forall i, j :: 0 <= i < j < |es| ==> Before(es[i], es[j]) || SameSlot(es[i], es[j])
  }

  ghost predicate StrictlySorted(es: seq<Version>) {
    forall i, j :: 0 <= i < j < |es| ==> Before(es[i], es[j])
  }

  function Elems(es: seq<Version>): set<Version> {
    set e | e in es
  }

  /** A strictly sorted run is determined by its set of versions. */
  lemma {:induction false} SortedUnique(a: seq<Version>, b: seq<Version>)
    requires StrictlySorted(a) && StrictlySorted(b)
    requires Elems(a) == Elems(b)
    ensures a == b
  {
    assert a != [] ==> a[0] in Elems(a);
    assert b != [] ==> b[0] in Elems(b);
    if a == [] || b == [] {
    } else {
      HeadIsLeast(a, b);
      HeadIsLeast(b, a);
      BeforeTotal(a[0], b[0]);
      assert a[0] == b[0];
      TailElems(a);
      TailElems(b);
      SortedUnique(a[1..], b[1..]);
      assert a == [a[0]] + a[1..] && b == [b[0]] + b[1..];
    }
  }

  lemma HeadIsLeast(a: seq<Version>, b: seq<Version>)
    requires a != [] && b != [] && StrictlySorted(a) && Elems(a) == Elems(b)
    ensures a[0] == b[0] || Before(a[0], b[0])
  {
    assert b[0] in Elems(a);
    var i :| 0 <= i < |a| && a[i] == b[0];
  }

  lemma TailElems(a: seq<Version>)
    requires a != [] && StrictlySorted(a)
    ensures Elems(a[1..]) == Elems(a) - {a[0]}
  {
  }

  /* ---------- One pass over a run ---------- */

  /** The last version of k in es that r can see: what every scan loop keeps. */
  function LastVisible(es: seq<Version>, k: Bytes, r: Reader): (o: Option<Version>)
    ensures o.Some? ==> o.value in es && Candidate(k, r, o.value)
    ensures o.None? ==> forall e :: e in es ==> !Candidate(k, r, e)
  {
    if es == [] then None
    else
      var last := es[|es| - 1];
      if Candidate(k, r, last) then Some(last)
      else LastVisible(es[..|es| - 1], k, r)
  }

  /** On a sorted run the last visible version is the newest visible one. */
  lemma {:induction false} LastVisiblePicks(es: seq<Version>, k: Bytes, r: Reader)
    requires Sorted(es)
    ensures match LastVisible(es, k, r)
            case None => NoCandidate(Elems(es), k, r)
            case Some(v) => Picks(Elems(es), k, r, v)
  {
    if es == [] {
    } else {
      var init, last := es[..|es| - 1], es[|es| - 1];
      assert es == init + [last];
      if Candidate(k, r, last) {
        forall w | w in Elems(es) && Candidate(k, r, w) ensures w.txn <= last.txn {
          var i :| 0 <= i < |es| && es[i] == w;
          assert i == |es| - 1 || Before(w, last) || SameSlot(w, last);
        }
      } else {
        LastVisiblePicks(init, k, r);
        assert forall w :: w in Elems(es) ==> w in Elems(init) || w == last;
      }
    }
  }
}
