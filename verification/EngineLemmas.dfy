/** Facts about the pieces of an engine state that the invariant proofs share. */
module EngineLemmas {
  import opened Bytes
  import opened Mvcc
  import opened Memtables
  import opened Layers
  import opened Compaction
  import opened Engine

  /* ---------- Sets of versions ---------- */

  lemma FileSetSplit(a: seq<File>, b: seq<File>)
    ensures FileSet(a + b) == FileSet(a) + FileSet(b)
    ensures FileLayers(a + b) == FileLayers(a) + FileLayers(b)
  {
    var ab := a + b;
    forall v | v in FileSet(a) ensures v in FileSet(ab) {
      var i :| 0 <= i < |a| && v in a[i].entries;
      assert v in ab[i].entries;
    }
    forall v | v in FileSet(b) ensures v in FileSet(ab) {
      var i :| 0 <= i < |b| && v in b[i].entries;
      assert v in ab[|a| + i].entries;
    }
    forall v | v in FileSet(ab) ensures v in FileSet(a) + FileSet(b) {
      var i :| 0 <= i < |ab| && v in ab[i].entries;
      if i < |a| { assert v in a[i].entries; } else { assert v in b[i - |a|].entries; }
    }
  }

  lemma FileSetOne(f: File)
    ensures FileSet([f]) == Elems(f.entries)
  {
    forall v | v in f.entries ensures v in FileSet([f]) {
      assert v in [f][0].entries;
    }
  }

  /** The layers a read walks hold exactly the stored versions. */
  lemma StoredIsUnion(mem: seq<Version>, files: seq<File>)
    ensures Union(Sets(Runs(files) + [mem])) == FileSet(files) + Elems(mem)
    ensures Sets(Runs(files) + [mem]) == FileLayers(files) + [Elems(mem)]
  {
    var ls := Runs(files) + [mem];
    forall v | v in FileSet(files) ensures v in Union(Sets(ls)) {
      var i :| 0 <= i < |files| && v in files[i].entries;
      assert v in Sets(ls)[i];
    }
    forall v | v in Elems(mem) ensures v in Union(Sets(ls)) {
      assert v in Sets(ls)[|files|];
    }
    forall v | v in Union(Sets(ls)) ensures v in FileSet(files) + Elems(mem) {
      var i :| 0 <= i < |ls| && v in Sets(ls)[i];
      if i < |files| { assert v in files[i].entries; }
    }
  }

  lemma ListingSet(order: seq<(Bytes, Bytes)>, writes: map<Bytes, Bytes>, t: TxnId)
    requires Listing(order, writes)
    ensures RecordSet(Record(t, order)) == VersionsOf(writes, t)
  {
  }

  /** Writing a transaction's distinct keys into slots that are free adds exactly its versions. */
  lemma {:induction false} PutAllElems(mem: seq<Version>, writes: seq<(Bytes, Bytes)>, t: TxnId)
    requires StrictlySorted(mem)
    requires forall i, j :: 0 <= i < j < |writes| ==> writes[i].0 != writes[j].0
    requires forall v, i :: v in mem && 0 <= i < |writes| ==> !(v.key == writes[i].0 && v.txn == t)
    ensures StrictlySorted(PutAll(mem, writes, t))
    ensures Elems(PutAll(mem, writes, t)) == Elems(mem) + RecordSet(Record(t, writes))
    decreases |writes|
  {
    if writes == [] {
    } else {
      var e := Version(writes[0].0, writes[0].1, t);
      UpsertElems(mem, e);
      assert Slot(mem, e) == {};
      var mem' := Upsert(mem, e);
      var rest := writes[1..];
      forall v, i | v in mem' && 0 <= i < |rest| ensures !(v.key == rest[i].0 && v.txn == t) {
        assert v in Elems(mem');
        assert rest[i] == writes[i + 1];
        if v != e { assert v in mem; }
      }
      PutAllElems(mem', rest, t);
      RecordSetCons(writes, t);
    }
  }

  lemma RecordSetCons(writes: seq<(Bytes, Bytes)>, t: TxnId)
    requires writes != []
    ensures RecordSet(Record(t, writes)) ==
            {Version(writes[0].0, writes[0].1, t)} + RecordSet(Record(t, writes[1..]))
  {
  }

  lemma {:induction false} MaxIdBounds(wal: seq<Record>)
    ensures forall v :: v in LogSet(wal) ==> v.txn <= MaxId(wal)
  {
    if wal == [] {
    } else {
      MaxIdBounds(wal[..|wal| - 1]);
    }
  }

  /** Dropping a reader drops all of its entries and keeps the others in order. */
  lemma {:induction false} WithoutExactly(a: seq<TxnId>, id: TxnId, t: TxnId)
    ensures Without(a + [id], t) == Without(a, t) + if id == t then [] else [id]
    ensures Without([], t) == []
    decreases |a|
  {
    if a == [] {
      assert a + [id] == [id] && [id][1..] == [];
    } else {
      assert (a + [id])[1..] == a[1..] + [id];
      WithoutExactly(a[1..], id, t);
    }
  }

  /** The largest id of the log, or 0 if it is empty. */
  lemma {:induction false} MaxIdIs(wal: seq<Record>)
    ensures forall i :: 0 <= i < |wal| ==> wal[i].txn <= MaxId(wal)
    ensures MaxId(wal) == 0 || exists i :: 0 <= i < |wal| && wal[i].txn == MaxId(wal)
  {
    if wal != [] {
      var init, n := wal[..|wal| - 1], |wal| - 1;
      MaxIdIs(init);
      assert forall i :: 0 <= i < n ==> init[i] == wal[i];
      assert wal[n].txn == wal[|wal| - 1].txn;
    }
  }

  /** The machine starts where opening an empty directory leads. */
  lemma FirstOpening(s: Sys)
    requires s.wal == [] && s.files == [] && s.nextFile == 0
    ensures Next(s, Restart) == Init
  {
  }

  /* ---------- Layer order ---------- */

  /** Growing the top layer by versions that nothing stored below exceeds. */
  lemma OrderedGrowTop(ls: seq<set<Version>>, top: set<Version>, add: set<Version>)
    requires Ordered(ls + [top])
    requires forall v, i, w :: v in add && 0 <= i < |ls| && w in ls[i] && w.key == v.key ==> w.txn <= v.txn
    ensures Ordered(ls + [top + add])
  {
    var a, b := ls + [top], ls + [top + add];
    forall k ensures OrderedFor(b, k) {
      assert OrderedFor(a, k);
      forall i, j, v, w | Inversion(b, k, i, j, v, w)
        ensures HeldFrom(b, i, w)
      {
        assert Inversion(a, k, i, j, v, w);
        var n :| i <= n < |a| && w in a[n];
        assert w in b[n];
      }
    }
  }

  /** Stacking the top layer once more, or an empty layer, changes nothing. */
  lemma OrderedPush(ls: seq<set<Version>>, top: set<Version>, more: set<Version>)
    requires Ordered(ls + [top])
    requires more == {} || more == top
    ensures Ordered(ls + [top] + [more])
  {
    var a, b := ls + [top], ls + [top] + [more];
    forall k ensures OrderedFor(b, k) {
      assert OrderedFor(a, k);
      forall i, j, v, w | Inversion(b, k, i, j, v, w)
        ensures HeldFrom(b, i, w)
      {
        if i == |ls| + 1 {
          if j >= |ls| {
            assert w in b[i];
          } else {
            assert Inversion(a, k, |ls|, j, v, w);
            assert w in a[|ls|];
            assert w in b[i];
          }
        } else {
          assert Inversion(a, k, i, j, v, w);
          var n :| i <= n < |a| && w in a[n];
          assert w in b[n];
        }
      }
    }
  }

  /** Replacing the oldest layers by one layer drawn from them. */
  lemma OrderedCompact(base: seq<set<Version>>, c: set<Version>, rest: seq<set<Version>>)
    requires Ordered(base + rest)
    requires forall v :: v in c ==> exists i :: 0 <= i < |base| && v in base[i]
    ensures Ordered([c] + rest)
  {
    var a, b := base + rest, [c] + rest;
    forall k ensures OrderedFor(b, k) {
      assert OrderedFor(a, k);
      forall i, j, v, w | Inversion(b, k, i, j, v, w)
        ensures HeldFrom(b, i, w)
      {
        var i' := i - 1 + |base|;
        assert b[i] == a[i'];
        var j' := j - 1 + |base|;
        if j == 0 {
          j' :| 0 <= j' < |base| && w in base[j'];
        }
        assert Inversion(a, k, i', j', v, w);
        var n :| i' <= n < |a| && w in a[n];
        assert w in b[n - |base| + 1];
      }
    }
  }

  /* ---------- Names and the swap ---------- */

  ghost predicate DistinctNames(files: seq<File>) {
    forall i, j :: 0 <= i < j < |files| ==> files[i].name != files[j].name
  }

  function Names(files: seq<File>): set<nat> {
    set i | 0 <= i < |files| :: files[i].name
  }

  lemma {:induction false} RemainingSplit(a: seq<File>, b: seq<File>, names: set<nat>)
    requires forall i :: 0 <= i < |a| ==> a[i].name in names
    requires forall i :: 0 <= i < |b| ==> b[i].name !in names
    ensures Remaining(a + b, names) == b
  {
    if a != [] {
      assert (a + b)[1..] == a[1..] + b;
      RemainingSplit(a[1..], b, names);
    } else if b != [] {
      assert a + b == b;
      assert b == [b[0]] + b[1..];
      RemainingSplit([], b[1..], names);
      assert [] + b[1..] == b[1..];
    }
  }

  /** With distinct names, inputs that are a prefix are swapped out as a prefix: the new
      files follow the compacted one in their old order. */
  lemma SwapKeepsNewFiles(files: seq<File>, inputs: seq<File>, c: File)
    requires DistinctNames(files) && inputs <= files
    ensures Swap(files, inputs, c) == [c] + files[|inputs|..]
  {
    var names := set i | 0 <= i < |inputs| :: inputs[i].name;
    var rest := files[|inputs|..];
    assert files == inputs + rest;
    forall i | 0 <= i < |rest| ensures rest[i].name !in names {
      assert rest[i] == files[|inputs| + i];
    }
    RemainingSplit(inputs, rest, names);
  }

  /* ---------- Locks ---------- */

  lemma {:induction false} ReleaseEffect(locks: map<Bytes, LocksAcquired>, t: TxnId, keys: seq<Bytes>)
    requires t != 0
    requires forall i, j :: 0 <= i < j < |keys| ==> keys[i] != keys[j]
    requires forall k :: k in keys ==> k in locks && locks[k].writer == t
    ensures var r := Release(locks, t, keys);
            && r.Keys == locks.Keys
            && (forall k :: k in locks ==> r[k] == if k in keys then locks[k].(writer := 0) else locks[k])
    decreases |keys|
  {
    if keys == [] {
    } else {
      var locks' := locks[keys[0] := locks[keys[0]].(writer := 0)];
      forall k | k in keys[1..] ensures k in locks' && locks'[k].writer == t {
        assert k in keys;
        var i :| 0 <= i < |keys[1..]| && keys[1..][i] == k;
        assert keys[i + 1] == k && keys[0] != keys[i + 1];
      }
      ReleaseEffect(locks', t, keys[1..]);
      assert keys == [keys[0]] + keys[1..];
      assert keys[0] !in keys[1..];
    }
  }
}
