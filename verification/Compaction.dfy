/** What a compaction keeps (sstable/compaction.go, buildCompactedEntries) and what that
    means to a reader. Stated on sets of versions, so independent of file and map order. */
module Compaction {
  import opened Bytes
  import opened Mvcc

  /** Above the horizon everything stays; at or below it, only the newest version of each key. */
  ghost predicate Kept(vs: set<Version>, m: nat, v: Version) {
    v.txn > m || forall w :: w in vs && w.key == v.key && w.txn <= m ==> w.txn <= v.txn
  }

  ghost function Compact(vs: set<Version>, m: nat): set<Version> {
    set v | v in vs && Kept(vs, m, v)
  }

  /** Compaction at m takes from r the version it must read: a newer version of the same
      key, at or below the horizon but invisible to r, is kept in its place. */
  ghost predicate Loses(vs: set<Version>, m: nat, r: Reader) {
    exists v: Version, w: Version :: Picks(vs, v.key, r, v) && w in vs && w.key == v.key && v.txn < w.txn <= m
  }

  ghost predicate SamePicks(vs: set<Version>, vs': set<Version>, r: Reader) {
    forall k, v :: Picks(vs, k, r, v) <==> Picks(vs', k, r, v)
  }

  /** The exact condition on the inputs under which compaction preserves every read of r. */
  lemma CompactionPreservesReadsExactly(vs: set<Version>, m: nat, r: Reader)
    ensures SamePicks(vs, Compact(vs, m), r) <==> !Loses(vs, m, r)
  {
    var c := Compact(vs, m);
    if Loses(vs, m, r) {
      var v: Version, w: Version :| Picks(vs, v.key, r, v) && w in vs && w.key == v.key && v.txn < w.txn <= m;
      assert !Kept(vs, m, v);
      assert !Picks(c, v.key, r, v);
    } else {
      forall k, v | Picks(vs, k, r, v) ensures Picks(c, k, r, v) {
        assert Kept(vs, m, v);
      }
      forall k, v | Picks(c, k, r, v) ensures Picks(vs, k, r, v) {
        PickExists(vs, k, r, v);
        var u :| Picks(vs, k, r, u) && v.txn <= u.txn;
        assert Picks(c, k, r, u);
      }
    }
  }

  /** A horizon below which r sees everything costs r nothing, whatever the files hold. */
  lemma SafeHorizon(vs: set<Version>, m: nat, r: Reader)
    requires forall v :: v in vs && v.txn <= m ==> Visible(r, v.txn)
    ensures !Loses(vs, m, r)
    ensures SamePicks(vs, Compact(vs, m), r)
  {
    if v: Version, w: Version :| Picks(vs, v.key, r, v) && w in vs && w.key == v.key && v.txn < w.txn <= m {
      assert Candidate(v.key, r, w);
      assert false;
    }
    CompactionPreservesReadsExactly(vs, m, r);
  }

  /** Transaction ids are handed out from one. */
  ghost predicate RealIds(vs: set<Version>) {
    forall v :: v in vs ==> v.txn >= 1
  }

  /** The horizons that are safe for r on every set of versions the store can hold, whose ids start at
      one: exactly those below which no id visible to r lies under an id invisible to r. Checkable
      from m and r alone. */
  lemma HorizonExact(m: nat, r: Reader)
    ensures (forall vs: set<Version> :: RealIds(vs) ==> SamePicks(vs, Compact(vs, m), r))
       <==> (forall i: nat, j: nat :: 1 <= j < i <= m && Visible(r, j) ==> Visible(r, i))
  {
    if forall i: nat, j: nat :: 1 <= j < i <= m && Visible(r, j) ==> Visible(r, i) {
      forall vs: set<Version> | RealIds(vs) ensures SamePicks(vs, Compact(vs, m), r) {
        if v: Version, w: Version :| Picks(vs, v.key, r, v) && w in vs && w.key == v.key && v.txn < w.txn <= m {
          assert Candidate(v.key, r, w);
          assert false;
        }
        CompactionPreservesReadsExactly(vs, m, r);
      }
    } else {
      var i: nat, j: nat :| 1 <= j < i <= m && Visible(r, j) && !Visible(r, i);
      var v, w := Version([1], [1], j), Version([1], [2], i);
      var vs := {v, w};
      assert Picks(vs, v.key, r, v);
      CompactionPreservesReadsExactly(vs, m, r);
      assert !SamePicks(vs, Compact(vs, m), r);
    }
  }

  /** Of the versions of a key at or below the horizon, the newest stays. */
  lemma TopSurvives(vs: set<Version>, m: nat, v: Version)
    requires v in vs && v.txn <= m
    ensures exists w :: w in Compact(vs, m) && w.key == v.key && v.txn <= w.txn <= m
  {
    var all := Reader(m, {});
    PickExists(vs, v.key, all, v);
    var w :| Picks(vs, v.key, all, w) && v.txn <= w.txn;
    forall u | u in vs && u.key == w.key && u.txn <= m ensures u.txn <= w.txn {
      assert Candidate(v.key, all, u);
    }
    assert w in Compact(vs, m);
  }

  /** Nothing is invented, everything above the horizon survives, no key disappears,
      and the newest version of every key survives whatever the horizon. */
  lemma CompactionKeeps(vs: set<Version>, m: nat)
    ensures Compact(vs, m) <= vs
    ensures forall v :: v in vs && v.txn > m ==> v in Compact(vs, m)
    ensures forall v :: v in vs && (forall w :: w in vs && w.key == v.key ==> w.txn <= v.txn) ==> v in Compact(vs, m)
    ensures forall v :: v in vs ==> exists w :: w in Compact(vs, m) && w.key == v.key && v.txn <= w.txn
  {
    forall v | v in vs ensures exists w :: w in Compact(vs, m) && w.key == v.key && v.txn <= w.txn {
      if v.txn > m {
        assert v in Compact(vs, m);
      } else {
        TopSurvives(vs, m, v);
      }
    }
  }

  /** Compacting again at a later horizon forgets nothing and keeps nothing extra. */
  lemma CompactTwice(vs: set<Version>, m1: nat, m2: nat)
    requires m1 <= m2
    ensures Compact(Compact(vs, m1), m2) == Compact(vs, m2)
  {
    var c := Compact(vs, m1);
    forall v | v in Compact(c, m2) ensures v in Compact(vs, m2) {
      forall w | w in vs && w.key == v.key && w.txn <= m2 && v.txn <= m2 ensures w.txn <= v.txn {
        if w.txn <= m1 {
          TopSurvives(vs, m1, w);
        }
      }
    }
    forall v | v in Compact(vs, m2) ensures v in Compact(c, m2) {
      assert v in c;
    }
  }

  /** A possible outcome of one compaction: some sorted listing of what is kept. */
  ghost predicate IsOutput(vs: set<Version>, m: nat, out: seq<Version>) {
    StrictlySorted(out) && Elems(out) == Compact(vs, m)
  }

  /** Two compactions in sequence write the same entries as one at the later horizon, and
      the entries do not depend on the order of files, of the map or of the sort. */
  lemma CompactionComposes(vs: set<Version>, m1: nat, m2: nat, first: seq<Version>,
                           second: seq<Version>, direct: seq<Version>)
    requires m1 <= m2
    requires IsOutput(vs, m1, first)
    requires IsOutput(Elems(first), m2, second)
    requires IsOutput(vs, m2, direct)
    ensures second == direct
  {
    CompactTwice(vs, m1, m2);
    SortedUnique(second, direct);
  }
}
