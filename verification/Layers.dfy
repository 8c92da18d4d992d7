/** Reading a stack of sorted runs, memtable on top of files, newest first with early
    stop (db/db.go getWithSnapshot, sstable/sstable.go Get). Oldest run first in each list. */
module Layers {
  import opened Bytes
  import opened Mvcc

  ghost function Union(ls: seq<set<Version>>): set<Version> {
    set i, v | 0 <= i < |ls| && v in ls[i] :: v
  }

  function Sets(ls: seq<seq<Version>>): (r: seq<set<Version>>)
    ensures |r| == |ls|
    ensures forall i :: 0 <= i < |ls| ==> r[i] == Elems(ls[i])
  {
    seq(|ls|, i requires 0 <= i < |ls| => Elems(ls[i]))
  }

  /** Layer i, above layer j, holds an older version of k than layer j does. */
  ghost predicate Inversion(ls: seq<set<Version>>, k: Bytes, i: int, j: int, v: Version, w: Version) {
    0 <= j < i < |ls| && v in ls[i] && w in ls[j] && v.key == k && w.key == k && v.txn < w.txn
  }

  /** Wherever a newer layer holds an older version of k than some lower layer does, the
      lower layer's version is also held at or above that newer layer. */
  ghost predicate OrderedFor(ls: seq<set<Version>>, k: Bytes) {
    forall i, j, v, w :: Inversion(ls, k, i, j, v, w) ==> HeldFrom(ls, i, w)
  }

  ghost predicate HeldFrom(ls: seq<set<Version>>, i: int, w: Version) {
    exists n :: 0 <= n < |ls| && i <= n && w in ls[n]
  }

  ghost predicate Ordered(ls: seq<set<Version>>) {
    forall k :: OrderedFor(ls, k)
  }

  /** Newest layer with a visible version wins and the search stops there. */
  function EarlyRead(ls: seq<seq<Version>>, k: Bytes, r: Reader): Option<Version> {
    if ls == [] then None
    else
      var top := LastVisible(ls[|ls| - 1], k, r);
      if top.Some? then top else EarlyRead(ls[..|ls| - 1], k, r)
  }

  ghost predicate Correct(vs: set<Version>, k: Bytes, r: Reader, o: Option<Version>) {
    match o
    case None => NoCandidate(vs, k, r)
    case Some(v) => Picks(vs, k, r, v)
  }

  ghost predicate AllSorted(ls: seq<seq<Version>>) {
    forall i :: 0 <= i < |ls| ==> Sorted(ls[i])
  }

  /** Where the early stop happened: layer i, with nothing visible above it. */
  lemma {:induction false} StopsAt(ls: seq<seq<Version>>, k: Bytes, r: Reader) returns (i: int)
    ensures -1 <= i < |ls|
    ensures forall n :: i < n < |ls| ==> LastVisible(ls[n], k, r).None?
    ensures EarlyRead(ls, k, r) == if i == -1 then None else LastVisible(ls[i], k, r)
    ensures i >= 0 ==> LastVisible(ls[i], k, r).Some?
  {
    if ls == [] {
      i := -1;
    } else if LastVisible(ls[|ls| - 1], k, r).Some? {
      i := |ls| - 1;
    } else {
      i := StopsAt(ls[..|ls| - 1], k, r);
    }
  }

  /** Whatever lies in layer j is no newer than the version the early stop returned. */
  lemma NothingNewer(ls: seq<seq<Version>>, k: Bytes, r: Reader, i: int, j: int, w: Version)
    requires AllSorted(ls) && OrderedFor(Sets(ls), k)
    requires 0 <= i < |ls| && LastVisible(ls[i], k, r).Some?
    requires forall n :: i < n < |ls| ==> LastVisible(ls[n], k, r).None?
    requires 0 <= j < |ls| && w in ls[j] && Candidate(k, r, w)
    ensures w.txn <= LastVisible(ls[i], k, r).value.txn
  {
    LastVisiblePicks(ls[i], k, r);
    var top := LastVisible(ls[i], k, r).value;
    assert top in Sets(ls)[i] && w in Sets(ls)[j];
    assert j < i && top.txn < w.txn ==> Inversion(Sets(ls), k, i, j, top, w);
  }

  lemma EarlyReadCorrect(ls: seq<seq<Version>>, k: Bytes, r: Reader)
    requires AllSorted(ls) && OrderedFor(Sets(ls), k)
    ensures Correct(Union(Sets(ls)), k, r, EarlyRead(ls, k, r))
  {
    var sets := Sets(ls);
    var i := StopsAt(ls, k, r);
    forall w | w in Union(sets) && Candidate(k, r, w)
      ensures i >= 0 && w.txn <= LastVisible(ls[i], k, r).value.txn
    {
      var j :| 0 <= j < |sets| && w in sets[j];
      assert w in ls[j];
      NothingNewer(ls, k, r, i, j, w);
    }
    if i >= 0 {
      assert LastVisible(ls[i], k, r).value in sets[i];
    }
  }

  function IdsBelow(n: nat): (s: set<TxnId>)
    ensures forall x: nat :: x in s <==> x < n
  {
    if n == 0 then {} else IdsBelow(n - 1) + {n - 1}
  }

  /** The reader that sees v and w and no other id. */
  function OnlySees(v: TxnId, w: TxnId): Reader {
    Reader(w, IdsBelow(w) - {v})
  }

  /** Early stop gives every reader its newest visible version of k exactly when the
      layers are ordered for k. */
  lemma EarlyStopExact(ls: seq<seq<Version>>, k: Bytes)
    requires AllSorted(ls) && Functional(Union(Sets(ls)))
    ensures (forall r :: Correct(Union(Sets(ls)), k, r, EarlyRead(ls, k, r))) <==> OrderedFor(Sets(ls), k)
  {
    var sets := Sets(ls);
    if OrderedFor(sets, k) {
      forall r ensures Correct(Union(sets), k, r, EarlyRead(ls, k, r)) { EarlyReadCorrect(ls, k, r); }
    } else {
      var i, j, v, w :| Inversion(sets, k, i, j, v, w) && !HeldFrom(sets, i, w);
      UnorderedMisreads(ls, k, i, j, v, w);
    }
  }

  lemma UnorderedMisreads(ls: seq<seq<Version>>, k: Bytes, i: int, j: int, v: Version, w: Version)
    requires Inversion(Sets(ls), k, i, j, v, w)
    requires !HeldFrom(Sets(ls), i, w) && Functional(Union(Sets(ls)))
    ensures !Correct(Union(Sets(ls)), k, OnlySees(v.txn, w.txn), EarlyRead(ls, k, OnlySees(v.txn, w.txn)))
  {
    var r := OnlySees(v.txn, w.txn);
    var at := StopsAt(ls, k, r);
    assert at >= i by { assert Candidate(k, r, v); }
    var top := EarlyRead(ls, k, r).value;
    assert top in Sets(ls)[at];
    assert w in Sets(ls)[j] && w in Union(Sets(ls)) && Candidate(k, r, w);
    assert top != w;
  }

  /* ---------- Values, as the code returns them ---------- */

  /** SsTable.Get: newest file first; an empty answer means "look further down". */
  function FilesGet(files: seq<seq<Version>>, k: Bytes, r: Reader): Bytes {
    if files == [] then []
    else
      var top := LastVisible(files[|files| - 1], k, r);
      if top.Some? && top.value.value != [] then top.value.value
      else FilesGet(files[..|files| - 1], k, r)
  }

  /** getWithSnapshot: the memtable decides if it has a visible version, else the files. */
  function StoreGet(mem: seq<Version>, files: seq<seq<Version>>, k: Bytes, r: Reader): Bytes {
    var top := LastVisible(mem, k, r);
    if top.Some? then top.value.value else FilesGet(files, k, r)
  }

  ghost predicate NonEmptyFor(vs: set<Version>, k: Bytes) {
    forall v :: v in vs && v.key == k ==> v.value != []
  }

  function ValueOf(o: Option<Version>): Bytes {
    if o.Some? then o.value.value else []
  }

  lemma {:induction false} FilesGetIsEarlyRead(files: seq<seq<Version>>, k: Bytes, r: Reader)
    requires NonEmptyFor(Union(Sets(files)), k)
    ensures FilesGet(files, k, r) == ValueOf(EarlyRead(files, k, r))
  {
    if files == [] {
    } else {
      var n := |files| - 1;
      var top := LastVisible(files[n], k, r);
      assert top.Some? ==> top.value in Sets(files)[n];
      forall v | v in Union(Sets(files[..n])) && v.key == k ensures v.value != [] {
        var i :| 0 <= i < n && v in Sets(files[..n])[i];
        assert v in Sets(files)[i];
      }
      FilesGetIsEarlyRead(files[..n], k, r);
    }
  }

  /** With ordered layers and no empty value for k, the layered lookup returns the newest visible value. */
  lemma StoreGetCorrect(mem: seq<Version>, files: seq<seq<Version>>, k: Bytes, r: Reader, o: Option<Bytes>)
    requires AllSorted(files + [mem]) && OrderedFor(Sets(files + [mem]), k)
    requires var vs := Union(Sets(files + [mem]));
             Functional(vs) && NonEmptyFor(vs, k) && Reads(vs, k, r, o)
    ensures StoreGet(mem, files, k, r) == if o.Some? then o.value else []
  {
    var ls := files + [mem];
    var vs := Union(Sets(ls));
    EarlyReadCorrect(ls, k, r);
    assert ls[..|ls| - 1] == files;
    forall v | v in Union(Sets(files)) ensures v in vs {
      var i :| 0 <= i < |files| && v in Sets(files)[i];
      assert v in Sets(ls)[i];
    }
    FilesGetIsEarlyRead(files, k, r);
    var e := EarlyRead(ls, k, r);
    if e.Some? {
      assert Reads(vs, k, r, Some(e.value.value));
      ReadsUnique(vs, k, r, o, Some(e.value.value));
    } else {
      ReadsUnique(vs, k, r, o, None);
    }
  }

  /** The files answer with nothing exactly if no file has a visible version with a value to show. */
  lemma {:induction false} FilesGetEmpty(files: seq<seq<Version>>, k: Bytes, r: Reader)
    ensures FilesGet(files, k, r) == [] <==>
            forall i :: 0 <= i < |files| ==> ValueOf(LastVisible(files[i], k, r)) == []
  {
    if files == [] {
    } else {
      var n := |files| - 1;
      FilesGetEmpty(files[..n], k, r);
      assert files == files[..n] + [files[n]];
    }
  }

  /** Otherwise the answer is that of the newest file with a value to show. */
  lemma {:induction false} FilesGetFrom(files: seq<seq<Version>>, k: Bytes, r: Reader, i: nat)
    requires i < |files| && forall j :: i < j < |files| ==> LastVisible(files[j], k, r).None?
    ensures FilesGet(files, k, r) ==
            if ValueOf(LastVisible(files[i], k, r)) != [] then ValueOf(LastVisible(files[i], k, r))
            else FilesGet(files[..i], k, r)
  {
    if i < |files| - 1 {
      var n := |files| - 1;
      FilesGetFrom(files[..n], k, r, i);
      assert files[..n][..i] == files[..i];
    }
  }

  /** File i holds the empty version e of k, and the older file j a non-empty one, v, that is older
      than e, but not e itself. */
  ghost predicate Resurrects(files: seq<seq<Version>>, k: Bytes, i: int, j: int, e: Version, v: Version) {
    && 0 <= j < i < |files| && e in files[i] && v in files[j] && e !in files[j]
    && e.key == k && v.key == k && e.value == [] && v.value != [] && v.txn < e.txn
  }

  /** On ordered files, skipping empty answers is harmless to every reader exactly if no file
      holds an empty version of the key above an older file with an older non-empty one. */
  lemma EmptyValuesExact(files: seq<seq<Version>>, k: Bytes)
    requires AllSorted(files) && OrderedFor(Sets(files), k) && Functional(Union(Sets(files)))
    ensures (forall r :: FilesGet(files, k, r) == ValueOf(EarlyRead(files, k, r)))
       <==> !exists i, j, e, v :: Resurrects(files, k, i, j, e, v)
  {
    if i, j, e, v :| Resurrects(files, k, i, j, e, v) {
      ResurrectionMisreads(files, k, i, j, e, v);
    } else {
      forall r ensures FilesGet(files, k, r) == ValueOf(EarlyRead(files, k, r)) {
        NothingResurrected(files, k, r);
      }
    }
  }

  lemma InUnion(files: seq<seq<Version>>, i: int, v: Version)
    requires 0 <= i < |files| && v in files[i]
    ensures v in Sets(files)[i] && v in Union(Sets(files))
  {
  }

  lemma ResurrectionMisreads(files: seq<seq<Version>>, k: Bytes, i: int, j: int, e: Version, v: Version)
    requires AllSorted(files) && OrderedFor(Sets(files), k) && Functional(Union(Sets(files)))
    requires Resurrects(files, k, i, j, e, v)
    ensures var r := OnlySees(v.txn, e.txn);
            FilesGet(files, k, r) != [] && ValueOf(EarlyRead(files, k, r)) == []
  {
    var r := OnlySees(v.txn, e.txn);
    InUnion(files, i, e);
    InUnion(files, j, v);
    EarlyReadCorrect(files, k, r);
    assert EarlyRead(files, k, r) == Some(e);
    var top := LastVisible(files[j], k, r).value;
    InUnion(files, j, top);
    assert top == v;
    FilesGetEmpty(files, k, r);
  }

  lemma NothingResurrected(files: seq<seq<Version>>, k: Bytes, r: Reader)
    requires AllSorted(files) && OrderedFor(Sets(files), k) && Functional(Union(Sets(files)))
    requires !exists i, j, e, v :: Resurrects(files, k, i, j, e, v)
    ensures FilesGet(files, k, r) == ValueOf(EarlyRead(files, k, r))
  {
    var i := StopsAt(files, k, r);
    if i == -1 {
      FilesGetEmpty(files, k, r);
    } else {
      FilesGetFrom(files, k, r, i);
      var e := LastVisible(files[i], k, r).value;
      if e.value == [] {
        forall j | 0 <= j < i ensures ValueOf(LastVisible(files[..i][j], k, r)) == [] {
          if LastVisible(files[j], k, r).Some? {
            BelowTheStop(files, k, r, i, j);
            assert !Resurrects(files, k, i, j, e, LastVisible(files[j], k, r).value);
          }
        }
        FilesGetEmpty(files[..i], k, r);
      }
    }
  }

  /** Below the file where the search stops, another version is older, and its file lacks the newer one. */
  lemma BelowTheStop(files: seq<seq<Version>>, k: Bytes, r: Reader, i: int, j: int)
    requires AllSorted(files) && OrderedFor(Sets(files), k) && Functional(Union(Sets(files)))
    requires 0 <= j < i < |files| && LastVisible(files[i], k, r).Some? && LastVisible(files[j], k, r).Some?
    requires forall n :: i < n < |files| ==> LastVisible(files[n], k, r).None?
    ensures var e, v := LastVisible(files[i], k, r).value, LastVisible(files[j], k, r).value;
            v == e || (v.txn < e.txn && e !in files[j])
  {
    var e, v := LastVisible(files[i], k, r).value, LastVisible(files[j], k, r).value;
    InUnion(files, i, e);
    InUnion(files, j, v);
    NothingNewer(files, k, r, i, j, v);
    LastVisiblePicks(files[j], k, r);
  }

  /** A non-empty answer is the value of a visible version in some file. */
  lemma {:induction false} FilesGetFound(files: seq<seq<Version>>, k: Bytes, r: Reader) returns (i: nat)
    requires FilesGet(files, k, r) != []
    ensures i < |files| && LastVisible(files[i], k, r).Some? && LastVisible(files[i], k, r).value.value == FilesGet(files, k, r)
  {
    var n := |files| - 1;
    if ValueOf(LastVisible(files[n], k, r)) != [] {
      i := n;
    } else {
      i := FilesGetFound(files[..n], k, r);
    }
  }

  /** With at most one version of k, in however many layers, the lookup returns its value: no order
      of layers and no value is excluded. */
  lemma StoreGetOnce(mem: seq<Version>, files: seq<seq<Version>>, k: Bytes, r: Reader, o: Option<Bytes>)
    requires var vs := Union(Sets(files + [mem]));
             && (forall v, w :: v in vs && w in vs && v.key == k && w.key == k ==> v == w)
             && Reads(vs, k, r, o)
    ensures StoreGet(mem, files, k, r) == if o.Some? then o.value else []
  {
    var ls := files + [mem];
    var top := LastVisible(mem, k, r);
    if top.Some? {
      assert ls[|files|] == mem;
      InUnion(ls, |files|, top.value);
    } else {
      if FilesGet(files, k, r) != [] {
        var i := FilesGetFound(files, k, r);
        assert ls[i] == files[i];
        InUnion(ls, i, LastVisible(files[i], k, r).value);
      } else if o.Some? {
        var v :| Picks(Union(Sets(ls)), k, r, v) && v.value == o.value;
        var i :| 0 <= i < |ls| && v in Sets(ls)[i];
        assert v in ls[i] && ls[|files|] == mem;
        assert i < |files| && ls[i] == files[i];
        var w := LastVisible(files[i], k, r).value;
        InUnion(ls, i, w);
        FilesGetEmpty(files, k, r);
      }
    }
  }

  /** What an empty value costs, on one instance: a visible empty version in a file is skipped and an
      older file answers instead. */
  lemma EmptyValueResurrects()
    ensures var k := [107];
            var files := [[Version(k, [1], 1)], [Version(k, [], 2)]];
            var r := Reader(3, {3});
            && Ordered(Sets(files))
            && EarlyRead(files, k, r) == Some(Version(k, [], 2))
            && FilesGet(files, k, r) == [1]
  {
    var k: Bytes := [107];
    var files := [[Version(k, [1], 1)], [Version(k, [], 2)]];
    var r := Reader(3, {3});
    assert files[..1] == [[Version(k, [1], 1)]];
    assert LastVisible(files[0], k, r) == Some(Version(k, [1], 1));
    assert LastVisible(files[1], k, r) == Some(Version(k, [], 2));
    assert files[..1][..0] == [];
  }
}
