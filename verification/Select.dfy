/** SELECT over the storage engine (db/select.go): the table scan, the index scan and the filter, run
    on a transaction's view of memtable and files, and the rows they return. */
module Select {
  import opened Bytes
  import opened Mvcc
  import opened Memtables
  import opened Layers
  import opened Engine
  import opened EngineLemmas
  import opened EngineInvariant
  import opened Snapshots
  import opened SsTableScans
  import opened SsTables
  import opened Databases
  import opened Rows
  import opened Catalog
  import opened TableKeys
  import opened Tables
  import opened SqlRuns
  import opened Planner

  /* ---------- One scan over memtable and files ---------- */

  /** The two scan maps together: nothing that is not in the snapshot, and everything in it that
      carries the prefix, the prefix itself possibly excepted. */
  ghost predicate ScanOf(mem: map<Bytes, Bytes>, sst: map<Bytes, ValueTxn>, prefix: Bytes, m: Store) {
    && (forall k :: k in mem || k in sst ==> HasPrefix(k, prefix) && k in m)
    && (forall k :: k in m && HasPrefix(k, prefix) && k != prefix ==>
          if k in mem then mem[k] == m[k] else k in sst && sst[k].value == m[k])
  }

  /** With ordered layers, "the memtable's answer if it has one, else the files'" is the newest visible version. */
  lemma OverlayReads(s: Sys, k: Bytes, p: Bytes, r: Reader, mem: map<Bytes, Bytes>, sst: map<Bytes, ValueTxn>)
    requires LayersOk(s) && HasPrefix(k, p) && ExactScan(Elems(s.mem), p, r, mem)
    requires KeyExact(FileSet(s.files), k, r, sst)
    ensures Reads(Stored(s), k, r, if k in mem then Some(mem[k]) else if k in sst then Some(sst[k].value) else None)
  {
    assert Reads(Elems(s.mem), k, r, if k in mem then Some(mem[k]) else None);
    if k in mem {
      var v :| Picks(Elems(s.mem), k, r, v) && v.value == mem[k];
      forall w | w in FileSet(s.files) && Candidate(k, r, w) ensures w.txn <= v.txn {
        if v.txn < w.txn { MemoryIsNewer(s, v, w); }
      }
      assert Picks(Stored(s), k, r, v);
    } else if k in sst {
      var v :| Picks(FileSet(s.files), k, r, v) && sst[k] == ValueTxn(v.value, v.txn);
      assert Picks(Stored(s), k, r, v);
    }
  }

  /** A file version newer than a memtable version of its key is in the memtable as well. */
  lemma MemoryIsNewer(s: Sys, v: Version, w: Version)
    requires LayersOk(s) && v in s.mem && w in FileSet(s.files) && v.key == w.key && v.txn < w.txn
    ensures w in s.mem
  {
    var ls := FileLayers(s.files) + [Elems(s.mem)];
    var j :| 0 <= j < |s.files| && w in s.files[j].entries;
    assert w in ls[j] && v in ls[|s.files|];
    assert OrderedFor(ls, v.key);
    assert Inversion(ls, v.key, |s.files|, j, v, w);
  }

  lemma FoundIsThere(s: Sys, k: Bytes, r: Reader, m: Store, vs: set<Version>)
    requires ReadsAs(Stored(s), r, m, {}) && vs <= Stored(s) && !NoCandidate(vs, k, r)
    ensures k in m
  {
    assert Reads(Stored(s), k, r, Lookup(m, k));
  }

  lemma ScanIsExact(s: Sys, p: Bytes, r: Reader, mem: map<Bytes, Bytes>, sst: map<Bytes, ValueTxn>, m: Store)
    requires LayersOk(s) && ReadsAs(Stored(s), r, m, {})
    requires ExactScan(Elems(s.mem), p, r, mem) && Sound(FileSet(s.files), p, r, sst)
    requires forall k :: HasPrefix(k, p) && k != p ==> KeyExact(FileSet(s.files), k, r, sst)
    ensures ScanOf(mem, sst, p, m)
  {
    hide LayersOk;
    forall k | k in mem || k in sst ensures HasPrefix(k, p) && k in m {
      if k in mem {
        assert Reads(Elems(s.mem), k, r, Some(mem[k]));
        FoundIsThere(s, k, r, m, Elems(s.mem));
      } else {
        FoundIsThere(s, k, r, m, FileSet(s.files));
      }
    }
    LayersReadable(s);
    forall k | k in m && HasPrefix(k, p) && k != p
      ensures if k in mem then mem[k] == m[k] else k in sst && sst[k].value == m[k]
    {
      OverlayReads(s, k, p, r, mem, sst);
      assert Reads(Stored(s), k, r, Lookup(m, k));
      ReadsUnique(Stored(s), k, r, Lookup(m, k), if k in mem then Some(mem[k]) else if k in sst then Some(sst[k].value) else None);
    }
  }

  /* ---------- A transaction that only reads ---------- */

  /** A running transaction with nothing buffered, in a database that simulates a; m is its snapshot:
      what was committed when it began. */
  ghost predicate Reading(txn: Transaction, a: Abs, m: Store)
    reads txn, txn.db, txn.db.wal, txn.db.mem, txn.db.sst, txn.db.live.Values
  {
    && txn.Running() && txn.buffered == map[]
    && Sim(txn.db.System(), a)
    && txn.id in a.txns && m == a.txns[txn.id].snapshot
  }

  lemma ReadingFacts(txn: Transaction, a: Abs, m: Store)
    requires Reading(txn, a, m)
    ensures var s := txn.db.System();
            && LayersOk(s) && txn.id in s.txns && ReaderOf(s, txn.id) == Reader(txn.id, txn.snapshot)
            && s.txns[txn.id].writes == map[]
            && ReadsAs(Stored(s), Reader(txn.id, txn.snapshot), m, {})
  {
  }

  lemma FilesAre(db: Database)
    requires db.Valid()
    ensures FileSet(db.System().files) == AllVersions(db.sst.runs)
  {
  }

  /** The two scans that fullTableScan and secondaryIndexPrefixScan start with. */
  method ScanBoth(txn: Transaction, prefix: Bytes, ghost a: Abs, ghost m: Store)
    returns (mem: map<Bytes, Bytes>, sst: map<Bytes, ValueTxn>)
    requires Reading(txn, a, m)
    ensures ScanOf(mem, sst, prefix, m)
  {
    hide Sim, LayersOk, ReadsAs, ExactScan, KeyExact, Sound, AllVersions, FileSet;
    var r := Reader(txn.id, txn.snapshot);
    mem := txn.db.mem.PrefixScan(prefix, r);
    var files := txn.db.sst.PrefixScan(prefix, r);
    sst := files.value;
    ReadingFacts(txn, a, m);
    FilesAre(txn.db);
    ScanIsExact(txn.db.System(), prefix, r, mem, sst, m);
  }

  /* ---------- Listing rows ---------- */

  /** rows lists the set, each row once, in some order: Go's maps promise no order. */
  ghost predicate Lists(rows: seq<Row>, want: set<Row>) {
    && (forall i, j :: 0 <= i < j < |rows| ==> rows[i] != rows[j])
    && (forall x :: x in rows <==> x in want)
  }

  lemma ListsOneMore(rows: seq<Row>, want: set<Row>, x: Row)
    requires Lists(rows, want) && x !in want
    ensures Lists(rows + [x], want + {x})
  {
  }

  ghost function AllRows(data: Data): set<Row> {
    set pk | pk in data :: data[pk]
  }

  /** Rows whose key is among those already visited. */
  ghost function RowsAt(name: Bytes, data: Data, keys: set<Bytes>): set<Row> {
    set pk | pk in data && RowKey(name, pk) in keys :: data[pk]
  }

  lemma RowsAtMore(name: Bytes, t: Table, data: Data, keys: set<Bytes>, pk: Bytes)
    requires pk in data && RowKey(name, pk) !in keys
    requires forall q :: q in data ==> PkOf(t, data[q]) == q
    ensures RowsAt(name, data, keys + {RowKey(name, pk)}) == RowsAt(name, data, keys) + {data[pk]}
    ensures data[pk] !in RowsAt(name, data, keys)
  {
    forall q | q in data && RowKey(name, q) in keys + {RowKey(name, pk)} ensures q == pk || RowKey(name, q) in keys {
      RowKeyInjective(name, q, pk);
    }
  }

  /** A stored row decodes to what was inserted. */
  lemma StoredRowDecodes(m: Store, name: Bytes, t: Table, data: Data, pk: Bytes)
    requires RowsStored(m, name, t, data) && pk in data
    ensures DecodeRow(Types(t), m[RowKey(name, pk)], 0) == Some(data[pk])
  {
    RowSurvivesExactly(Types(t), data[pk]);
  }

  lemma RowFound(m: Store, name: Bytes, t: Table, data: Data, k: Bytes) returns (pk: Bytes)
    requires RowsStored(m, name, t, data) && k in m && HasPrefix(k, RowKey(name, []))
    ensures pk in data && k == RowKey(name, pk) && k != RowKey(name, [])
    ensures DecodeRow(Types(t), m[k], 0) == Some(data[pk])
  {
    pk :| pk in data && k == RowKey(name, pk);
    RowKeyInjective(name, pk, []);
    StoredRowDecodes(m, name, t, data, pk);
  }

  lemma PksAre(m: Store, name: Bytes, t: Table, data: Data)
    requires RowsStored(m, name, t, data)
    ensures forall q :: q in data ==> PkOf(t, data[q]) == q
    ensures forall q :: q in data ==> RowKey(name, q) in m && HasPrefix(RowKey(name, q), RowKey(name, [])) && RowKey(name, q) != RowKey(name, [])
  {
  }

  /** One turn of the scan loops: decode the value under key k and list the row. */
  method ListRow(t: Table, rows: seq<Row>, value: Bytes, ghost name: Bytes, ghost data: Data,
                 ghost m: Store, ghost k: Bytes, ghost done: set<Bytes>)
    returns (rows': Result<seq<Row>>)
    requires RowsStored(m, name, t, data) && Lists(rows, RowsAt(name, data, done))
    requires k in m && HasPrefix(k, RowKey(name, [])) && k !in done && value == m[k]
    ensures rows'.Ok? && Lists(rows'.value, RowsAt(name, data, done + {k}))
  {
    hide Lists, RowsAt, RowsStored, DecodeRow;
    ghost var pk := RowFound(m, name, t, data, k);
    var row := DeserialiseRow(Types(t), value);
    PksAre(m, name, t, data);
    RowsAtMore(name, t, data, done, pk);
    ListsOneMore(rows, RowsAt(name, data, done), data[pk]);
    return Ok(rows + [row.value]);
  }

  /** fullTableScan: every row of the table as of the reader's snapshot, once. */
  method FullTableScan(txn: Transaction, t: Table, name: Bytes, ghost a: Abs, ghost m: Store, ghost data: Data)
    returns (rows: Result<seq<Row>>)
    requires Reading(txn, a, m) && RowsStored(m, name, t, data)
    ensures rows.Ok? && Lists(rows.value, AllRows(data))
  {
    hide Lists, RowsAt, RowsStored, DecodeRow, Reading, RowKey;
    var prefix := RowKey(name, []);
    var mem, sst := ScanBoth(txn, prefix, a, m);
    var output: seq<Row> := [];
    ghost var done: set<Bytes> := {};
    NothingYet(name, data);
    PksAre(m, name, t, data);
    KeysAre(m, name, t, data);
    var todo := mem.Keys;
    while todo != {}
      invariant todo <= mem.Keys && done == mem.Keys - todo
      invariant Lists(output, RowsAt(name, data, done))
      decreases todo
    {
      var k :| k in todo;
      var more := ListRow(t, output, mem[k], name, data, m, k, done);
      output, todo, done := more.value, todo - {k}, done + {k};
    }
    todo := sst.Keys;
    assert mem.Keys - {} == mem.Keys + (sst.Keys - todo);
    while todo != {}
      invariant todo <= sst.Keys && done == mem.Keys + (sst.Keys - todo)
      invariant Lists(output, RowsAt(name, data, done))
      decreases todo
    {
      var k :| k in todo;
      if k !in mem {
        var more := ListRow(t, output, sst[k].value, name, data, m, k, done);
        output := more.value;
      } else {
        assert done + {k} == done;
      }
      todo, done := todo - {k}, done + {k};
    }
    AllVisited(name, data, done);
    return Ok(output);
  }

  lemma NothingYet(name: Bytes, data: Data)
    ensures Lists([], RowsAt(name, data, {}))
  {
  }

  lemma AllVisited(name: Bytes, data: Data, keys: set<Bytes>)
    requires forall pk :: pk in data ==> RowKey(name, pk) in keys
    ensures RowsAt(name, data, keys) == AllRows(data)
  {
  }

  lemma KeysAre(m: Store, name: Bytes, t: Table, data: Data)
    requires RowsStored(m, name, t, data)
    ensures forall k :: k in m && HasPrefix(k, RowKey(name, [])) ==> k != RowKey(name, [])
  {
  }

  /* ---------- One row by primary key ---------- */

  /** Each primary key of the table was written once: there is at most one stored version of each of
      its row keys, whatever its value and wherever it lies. */
  ghost predicate RowsOnce(txn: Transaction, name: Bytes)
    requires txn.db.Valid()
    reads txn, txn.db, txn.db.wal, txn.db.mem, txn.db.sst, txn.db.live.Values
  {
    OnceIn(Stored(txn.db.System()), name)
  }

  lemma EmptyDecodes(types: seq<DataType>)
    requires types != []
    ensures DecodeRow(types, [], 0).None?
  {
  }

  lemma MissingRow(m: Store, name: Bytes, t: Table, data: Data, pk: Bytes)
    requires RowsStored(m, name, t, data) && pk !in data
    ensures RowKey(name, pk) !in m
  {
    RowKeyInjective(name, pk, pk);
    if RowKey(name, pk) in m {
      var q :| q in data && RowKey(name, pk) == RowKey(name, q);
      RowKeyInjective(name, pk, q);
    }
  }

  /** What a point read of a row key returns: the snapshot's value, or the empty string. */
  lemma PointRead(txn: Transaction, a: Abs, m: Store, name: Bytes, pk: Bytes)
    requires Reading(txn, a, m) && RowsOnce(txn, name)
    ensures var k := RowKey(name, pk);
            && txn.db.FilesExact(k, Reader(txn.id, txn.snapshot))
            && txn.id in txn.db.System().txns && TxnGet(txn.db.System(), txn.id, k) == if k in m then m[k] else []
  {
    hide Sim, LookupExact, LayersOk;
    var k, s, r := RowKey(name, pk), txn.db.System(), Reader(txn.id, txn.snapshot);
    RowKeyInjective(name, pk, []);
    assert forall v, w :: v in Stored(s) && w in Stored(s) && v.key == k && w.key == k ==> v == w;
    txn.db.OnceIsExact(k, r);
    ReadingFacts(txn, a, m);
    StoredIsUnion(s.mem, s.files);
    assert Reads(Stored(s), k, r, Lookup(m, k));
    StoreGetOnce(s.mem, Runs(s.files), k, r, Lookup(m, k));
  }

  /** getRowForPrimaryKey: the row, or an error for a key that was never inserted. */
  method GetRow(txn: Transaction, t: Table, name: Bytes, pk: Bytes, ghost a: Abs, ghost m: Store, ghost data: Data)
    returns (row: Result<Row>)
    requires Reading(txn, a, m) && RowsOnce(txn, name) && RowsStored(m, name, t, data) && t.columns != []
    ensures row == if pk in data then Ok(data[pk]) else Err
  {
    hide Sim, RowsStored, DecodeRow, LookupExact, TxnGet, RowsOnce, StoreGet;
    var value := txn.Get(RowKey(name, pk));
    PointRead(txn, a, m, name, pk);
    if pk in data {
      PksAre(m, name, t, data);
      StoredRowDecodes(m, name, t, data, pk);
    } else {
      MissingRow(m, name, t, data, pk);
      EmptyDecodes(Types(t));
    }
    var values := DeserialiseRow(Types(t), value.value);
    return if values.None? then Err else Ok(values.value);
  }

  /* ---------- The index path ---------- */

  /** No scan text is itself an entry, and every key an index scan meets is an entry of that index. */
  lemma EntryFound(m: Store, name: Bytes, t: Table, ix: Index, data: Data, lead: seq<Bytes>, k: Bytes) returns (pk: Bytes)
    requires WellFormed(name, t) && TableIn(m, name, t, data) && ix in t.indexes && AllPlain(lead)
    requires k in m && HasPrefix(k, IndexKey(name, ix.name, lead, []))
    ensures pk in data && k == EntryKey(name, t, ix, data[pk]) && LastPart(k) == pk && pk != []
    ensures lead <= IndexValues(ix.columns, t.columns, data[pk])
  {
    hide IndexKey, LastPart, IndexValues, EncodeRow, CanonicalRow;
    LongerScan(name, ix.name, lead);
    pk :| pk in data && k == EntryKey(name, t, ix, data[pk]);
    var values := IndexValues(ix.columns, t.columns, data[pk]);
    IndexKeyMeets(name, ix.name, lead, name, ix.name, values, pk);
    LastPartOfIndexKey(name, ix.name, values, pk);
  }

  lemma LongerScan(name: Bytes, index: Bytes, lead: seq<Bytes>)
    ensures HasPrefix(IndexKey(name, index, lead, []), IndexKey(name, index, [], []))
  {
    var head := INDEX + [COLON] + name + [COLON] + index;
    assert IndexKey(name, index, [], []) == head + [COLON];
    TailStarts(lead);
    assert IndexKey(name, index, lead, []) == head + (Tail(lead) + [COLON]);
    var tail := Tail(lead) + [COLON];
    assert tail == [COLON] + tail[1..];
    assert IndexKey(name, index, lead, []) == head + [COLON] + tail[1..];
  }

  lemma {:induction false} TailStarts(lead: seq<Bytes>)
    ensures (Tail(lead) + [COLON])[0] == COLON
  {
    if lead == [] {
    } else {
      var n := |lead| - 1;
      TailStarts(lead[..n]);
      assert n > 0 ==> Tail(lead[..n]) != [];
      assert Tail(lead[..n]) != [] ==> Tail(lead)[0] == Tail(lead[..n])[0];
    }
  }

  /** The primary keys whose index entry starts with the scanned values. */
  ghost function Hits(t: Table, ix: Index, data: Data, lead: seq<Bytes>): set<Bytes>
    requires forall pk :: pk in data ==> |data[pk]| == |t.columns|
  {
    set pk | pk in data && lead <= IndexValues(ix.columns, t.columns, data[pk])
  }

  lemma EntryOfHit(m: Store, name: Bytes, t: Table, ix: Index, data: Data, lead: seq<Bytes>, pk: Bytes)
    requires WellFormed(name, t) && TableIn(m, name, t, data) && ix in t.indexes && AllPlain(lead)
    requires pk in data && lead <= IndexValues(ix.columns, t.columns, data[pk])
    ensures var k := EntryKey(name, t, ix, data[pk]);
            k in m && HasPrefix(k, IndexKey(name, ix.name, lead, [])) && k != IndexKey(name, ix.name, lead, []) && LastPart(k) == pk
  {
    hide IndexKey, LastPart, IndexValues, EncodeRow, CanonicalRow;
    var values := IndexValues(ix.columns, t.columns, data[pk]);
    IndexKeyMeets(name, ix.name, lead, name, ix.name, values, pk);
    LastPartOfIndexKey(name, ix.name, values, pk);
    LastPartOfIndexKey(name, ix.name, lead, []);
  }

  /** secondaryIndexPrefixScan: exactly the primary keys of the matching entries. */
  method SecondaryIndexPrefixScan(txn: Transaction, t: Table, name: Bytes, ix: Index, lead: seq<Bytes>,
                                  ghost a: Abs, ghost m: Store, ghost data: Data)
    returns (pks: set<Bytes>)
    requires Reading(txn, a, m) && WellFormed(name, t) && TableIn(m, name, t, data)
    requires ix in t.indexes && AllPlain(lead)
    ensures RowsStored(m, name, t, data) && pks == Hits(t, ix, data, lead)
  {
    hide Reading, RowsStored, IndexKey, LastPart, IndexValues, WellFormed, AllPlain, IndexStored, EntryKey;
    var prefix := IndexKey(name, ix.name, lead, []);
    var mem, sst := ScanBoth(txn, prefix, a, m);
    SizesStored(m, name, t, data);
    pks := LastParts(mem.Keys + sst.Keys);
    forall k | k in mem.Keys + sst.Keys ensures LastPart(k) in Hits(t, ix, data, lead) {
      var pk := EntryFound(m, name, t, ix, data, lead, k);
    }
    forall pk | pk in Hits(t, ix, data, lead) ensures pk in pks {
      EntryOfHit(m, name, t, ix, data, lead, pk);
      assert EntryKey(name, t, ix, data[pk]) in mem.Keys + sst.Keys;
    }
  }

  method LastParts(keys: set<Bytes>) returns (parts: set<Bytes>)
    ensures parts == set k | k in keys :: LastPart(k)
  {
    hide LastPart;
    parts := {};
    var todo := keys;
    while todo != {}
      invariant todo <= keys
      invariant parts == set k | k in keys - todo :: LastPart(k)
      decreases todo
    {
      var k :| k in todo;
      var p := LastPart(k);
      ghost var before := keys - todo;
      todo := todo - {k};
      assert keys - todo == before + {k};
      parts := parts + {p};
    }
    assert keys - {} == keys;
  }

  ghost function RowsOf(data: Data, pks: set<Bytes>): set<Row> {
    set pk | pk in data && pk in pks :: data[pk]
  }

  lemma RowsOfMore(t: Table, data: Data, pks: set<Bytes>, pk: Bytes)
    requires pk in data && pk !in pks && forall q :: q in data ==> PkOf(t, data[q]) == q
    ensures RowsOf(data, pks + {pk}) == RowsOf(data, pks) + {data[pk]} && data[pk] !in RowsOf(data, pks)
  {
  }

  /** One point read per primary key found in the index. */
  method RowsForPks(txn: Transaction, t: Table, name: Bytes, pks: set<Bytes>, ghost a: Abs, ghost m: Store, ghost data: Data)
    returns (rows: Result<seq<Row>>)
    requires Reading(txn, a, m) && RowsOnce(txn, name) && RowsStored(m, name, t, data) && t.columns != []
    requires forall pk :: pk in pks ==> pk in data
    ensures rows.Ok? && Lists(rows.value, RowsOf(data, pks))
  {
    hide Reading, RowsOnce, RowsStored, Lists, RowsOf;
    var output: seq<Row> := [];
    var todo := pks;
    PksAre(m, name, t, data);
    NoRowsYet(data);
    ghost var done: set<Bytes> := {};
    while todo != {}
      invariant todo <= pks && done == pks - todo
      invariant Lists(output, RowsOf(data, done))
      decreases todo
    {
      var pk :| pk in todo;
      var row := GetRow(txn, t, name, pk, a, m, data);
      RowsOfMore(t, data, done, pk);
      ListsOneMore(output, RowsOf(data, done), data[pk]);
      output := output + [row.value];
      todo, done := todo - {pk}, done + {pk};
    }
    assert done == pks;
    return Ok(output);
  }

  lemma NoRowsYet(data: Data)
    ensures Lists([], RowsOf(data, {}))
  {
  }

  /* ---------- Filtering ---------- */

  /** The rows that meet one condition; None if its operator is unknown and there is a row to test. */
  function KeepRows(rows: seq<Row>, p: nat, c: Condition): Option<seq<Row>>
    requires forall x <- rows :: p < |x|
  {
    if rows == [] then Some([])
    else
      var n := |rows| - 1;
      assert rows[n] in rows && forall x <- rows[..n] :: x in rows;
      var init := KeepRows(rows[..n], p, c);
      var keep := Applies(c.op, rows[n][p], c.value);
      if init.None? || keep.None? then None
      else Some(init.value + if keep.value then [rows[n]] else [])
  }

  ghost function Holding(t: Table, want: set<Row>, c: Condition): set<Row> {
    set x | x in want && Holds(t, x, c)
  }

  lemma ListsLast(t: Table, rows: seq<Row>, want: set<Row>)
    requires rows != [] && Lists(rows, want)
    ensures var n := |rows| - 1; rows[n] in want && Lists(rows[..n], want - {rows[n]})
  {
    assert rows == rows[..|rows| - 1] + [rows[|rows| - 1]];
  }

  lemma HoldingMore(t: Table, want: set<Row>, c: Condition, last: Row)
    requires last in want
    ensures Holding(t, want, c) == Holding(t, want - {last}, c) + if Holds(t, last, c) then {last} else {}
    ensures last !in Holding(t, want - {last}, c)
  {
  }

  lemma {:induction false} KeepRowsLists(t: Table, rows: seq<Row>, p: nat, c: Condition, want: set<Row>)
    requires Lists(rows, want) && Supported(c.op) && Position(t.columns, c.column) == Some(p)
    requires forall x <- rows :: |x| == |t.columns|
    ensures KeepRows(rows, p, c).Some?
    ensures Lists(KeepRows(rows, p, c).value, Holding(t, want, c))
  {
    hide Lists, Holding;
    if rows == [] {
      NothingHeld(t, want, c);
    } else {
      var n := |rows| - 1;
      var init, last := rows[..n], rows[n];
      assert forall x <- init :: x in rows;
      ListsLast(t, rows, want);
      KeepRowsLists(t, init, p, c, want - {last});
      HoldingMore(t, want, c, last);
      var kept := KeepRows(init, p, c).value;
      assert kept + [] == kept;
      var h := Holding(t, want - {last}, c);
      assert h + {} == h;
      assert KeepRows(rows, p, c).value == if Holds(t, last, c) then kept + [last] else kept;
      if Holds(t, last, c) { ListsOneMore(kept, h, last); }
    }
  }

  lemma NothingHeld(t: Table, want: set<Row>, c: Condition)
    requires Lists([], want)
    ensures Lists([], Holding(t, want, c))
  {
  }

  /** filterQueryConditions' inner loop. */
  method FilterOne(rows: seq<Row>, p: nat, c: Condition) returns (r: Option<seq<Row>>)
    requires forall x <- rows :: p < |x|
    ensures r == KeepRows(rows, p, c)
  {
    hide Applies;
    var kept: seq<Row> := [];
    assert rows[..0] == [];
    for i := 0 to |rows|
      invariant KeepRows(rows[..i], p, c) == Some(kept)
    {
      assert rows[..i + 1][..i] == rows[..i];
      var keep := Applies(c.op, rows[i][p], c.value);
      if keep.None? {
        KeepRowsStops(rows, p, c, i + 1);
        return None;
      }
      assert kept + [] == kept;
      if keep.value { kept := kept + [rows[i]]; }
    }
    assert rows[..|rows|] == rows;
    return Some(kept);
  }

  lemma {:induction false} KeepRowsStops(rows: seq<Row>, p: nat, c: Condition, i: nat)
    requires i <= |rows| && (forall x <- rows :: p < |x|) && KeepRows(rows[..i], p, c).None?
    ensures KeepRows(rows, p, c).None?
    decreases |rows| - i
  {
    if i == |rows| {
      assert rows[..i] == rows;
    } else {
      assert rows[..i + 1][..i] == rows[..i];
      KeepRowsStops(rows, p, c, i + 1);
    }
  }

  lemma KeptAreRows(rows: seq<Row>, p: nat, c: Condition)
    requires (forall x <- rows :: p < |x|) && KeepRows(rows, p, c).Some?
    ensures forall x <- KeepRows(rows, p, c).value :: x in rows
  {
    if rows == [] {
    } else {
      var n := |rows| - 1;
      assert forall x <- rows[..n] :: x in rows;
      KeptAreRows(rows[..n], p, c);
    }
  }

  /** What is left after the conditions before n that the index has not already covered. */
  ghost function Left(t: Table, want: set<Row>, cs: seq<Condition>, covered: seq<Bytes>, n: nat): set<Row> {
    set x | x in want && forall i :: 0 <= i < |cs| && i < n && cs[i].column !in covered ==> Holds(t, x, cs[i])
  }

  lemma LeftStep(t: Table, want: set<Row>, cs: seq<Condition>, covered: seq<Bytes>, n: nat)
    requires n < |cs|
    ensures Left(t, want, cs, covered, n + 1) ==
            if cs[n].column in covered then Left(t, want, cs, covered, n) else Holding(t, Left(t, want, cs, covered, n), cs[n])
  {
    var a, b := Left(t, want, cs, covered, n), Left(t, want, cs, covered, n + 1);
    forall x | x in a && (cs[n].column in covered || Holds(t, x, cs[n])) ensures x in b {}
    forall x | x in b ensures x in a {}
  }

  ghost function Survivors(t: Table, want: set<Row>, cs: seq<Condition>, covered: seq<Bytes>): set<Row> {
    set x | x in want && Filtered(t, x, cs, covered)
  }

  /** What the filter keeps, in terms of the order of byte strings: x is kept exactly if it was there
      and its value stands in the written relation to that of every condition not covered. */
  ghost predicate Stands(op: Bytes, a: Bytes, b: Bytes) {
    || (op == [61] && a == b)
    || (op == [60] && Precedes(a, b))
    || (op == [60, 61] && (a == b || Precedes(a, b)))
    || (op == [62] && Precedes(b, a))
    || (op == [62, 61] && (a == b || Precedes(b, a)))
  }

  lemma SurvivorsExactly(t: Table, want: set<Row>, cs: seq<Condition>, covered: seq<Bytes>, x: Row)
    requires Catalog.DistinctNames(t.columns) && |x| == |t.columns|
    ensures x in Survivors(t, want, cs, covered) <==>
              && x in want
              && forall i :: 0 <= i < |cs| && cs[i].column !in covered ==>
                   exists p :: 0 <= p < |x| && t.columns[p].name == cs[i].column && Stands(cs[i].op, x[p], cs[i].value)
  {
    forall i | 0 <= i < |cs|
      ensures Holds(t, x, cs[i]) <==> exists p :: 0 <= p < |x| && t.columns[p].name == cs[i].column && Stands(cs[i].op, x[p], cs[i].value)
    {
      var q := Position(t.columns, cs[i].column);
      if q.Some? { AppliesExactly(x[q.value], cs[i].value); }
      forall p | 0 <= p < |x| && t.columns[p].name == cs[i].column ensures q == Some(p) { PositionOf(t, cs[i].column, p); }
    }
  }

  /** The rows kept by <= are those kept by < together with those kept by =, and > keeps the others. */
  lemma AtMostKeeps(t: Table, want: set<Row>, column: Bytes, v: Bytes)
    requires Position(t.columns, column).Some? && forall x <- want :: |x| == |t.columns|
    ensures Survivors(t, want, [Condition(column, [60, 61], v)], []) ==
            Survivors(t, want, [Condition(column, [60], v)], []) + Survivors(t, want, [Condition(column, [61], v)], [])
    ensures Survivors(t, want, [Condition(column, [62], v)], []) == want - Survivors(t, want, [Condition(column, [60, 61], v)], [])
    ensures Survivors(t, want, [Condition(column, [62, 61], v)], []) == want - Survivors(t, want, [Condition(column, [60], v)], [])
  {
    var p := Position(t.columns, column).value;
    forall x, op | x in want && op in {[61], [60], [60, 61], [62], [62, 61]}
      ensures x in Survivors(t, want, [Condition(column, op, v)], []) <==> Applies(op, x[p], v) == Some(true)
    {
      assert [Condition(column, op, v)][0] == Condition(column, op, v);
    }
    forall x | x in want
      ensures Applies([60, 61], x[p], v) == Some(true) <==> Applies([60], x[p], v) == Some(true) || Applies([61], x[p], v) == Some(true)
      ensures Applies([62], x[p], v) == Some(true) <==> Applies([60, 61], x[p], v) != Some(true)
      ensures Applies([62, 61], x[p], v) == Some(true) <==> Applies([60], x[p], v) != Some(true)
    {
      AppliesExactly(x[p], v);
      OneOfThree(x[p], v);
    }
  }

  lemma LeftEnds(t: Table, want: set<Row>, cs: seq<Condition>, covered: seq<Bytes>)
    ensures Left(t, want, cs, covered, 0) == want
    ensures Left(t, want, cs, covered, |cs|) == Survivors(t, want, cs, covered)
  {
  }

  /** filterQueryConditions. Names and operators outside the covered columns decide whether it can
      fail; if it returns rows, they are exactly those that meet every condition not covered. */
  method FilterQueryConditions(t: Table, cs: seq<Condition>, covered: seq<Bytes>, rows: seq<Row>, ghost want: set<Row>)
    returns (r: Result<seq<Row>>)
    requires Lists(rows, want) && forall x <- rows :: |x| == |t.columns|
    ensures Meaningful(t, cs) ==> r.Ok? && Lists(r.value, Survivors(t, want, cs, covered))
    ensures (exists i :: 0 <= i < |cs| && cs[i].column !in covered && Position(t.columns, cs[i].column).None?) ==> r.Err?
  {
    hide Lists, Holds, Supported, Left, Survivors;
    var result := rows;
    LeftEnds(t, want, cs, covered);
    for i := 0 to |cs|
      invariant forall x <- result :: |x| == |t.columns|
      invariant Meaningful(t, cs) ==> Lists(result, Left(t, want, cs, covered, i))
      invariant forall j :: 0 <= j < i && cs[j].column !in covered ==> Position(t.columns, cs[j].column).Some?
    {
      LeftStep(t, want, cs, covered, i);
      if cs[i].column !in covered {
        var p := Position(t.columns, cs[i].column);
        if p.None? { return Err; }
        var kept := FilterOne(result, p.value, cs[i]);
        if Meaningful(t, cs) { KeepRowsLists(t, result, p.value, cs[i], Left(t, want, cs, covered, i)); }
        if kept.None? { return Err; }
        KeptAreRows(result, p.value, cs[i]);
        result := kept.value;
      }
    }
    return Ok(result);
  }

  /* ---------- The planner's loops ---------- */

  lemma {:induction false} CoveredIs(names: seq<Bytes>, cs: seq<Condition>, n: nat)
    requires n <= |names| && (forall j :: 0 <= j < n ==> Mentions(cs, names[j]))
    requires n < |names| ==> !Mentions(cs, names[n])
    ensures Covered(names, cs) == names[..n]
  {
    if n > 0 {
      assert forall j :: 0 <= j < |names| - 1 ==> names[1..][j] == names[j + 1];
      CoveredIs(names[1..], cs, n - 1);
      assert names[..n] == [names[0]] + names[1..][..n - 1];
    }
  }

  method QueryColumns(cs: seq<Condition>) returns (columns: set<Bytes>)
    ensures forall x :: x in columns <==> Mentions(cs, x)
  {
    columns := {};
    for i := 0 to |cs|
      invariant forall x :: x in columns <==> exists j :: 0 <= j < i && cs[j].column == x
    {
      columns := columns + {cs[i].column};
    }
  }

  method ChooseIndex(ixs: seq<Index>, cs: seq<Condition>) returns (c: Option<Choice>)
    ensures c == Choose(ixs, cs, None)
  {
    hide Covered, Mentions;
    c := None;
    assert ixs[0..] == ixs;
    for i := 0 to |ixs|
      invariant Choose(ixs, cs, None) == Choose(ixs[i..], cs, c)
    {
      assert ixs[i..][1..] == ixs[i + 1..];
      var names := ixs[i].columns;
      var columns := QueryColumns(cs);
      ghost var before := c;
      var k := 0;
      while k < |names| && names[k] in columns
        invariant k <= |names| && forall j :: 0 <= j < k ==> Mentions(cs, names[j])
        invariant c == if k == 0 then before else Some(Choice(ixs[i], names[..k]))
        invariant k > 0 ==> k < |names|
      {
        k := k + 1;
        if k == |names| {
          CoveredIs(names, cs, k);
          assert names[..k] == names;
          return Some(Choice(ixs[i], names[..k]));
        }
        c := Some(Choice(ixs[i], names[..k]));
      }
      CoveredIs(names, cs, k);
    }
  }

  method CoveredColumnValues(covered: seq<Bytes>, cs: seq<Condition>) returns (values: seq<Bytes>)
    ensures values == CoveredValues(covered, cs)
  {
    values := [];
    assert covered[0..] == covered;
    for i := 0 to |covered|
      invariant values + CoveredValues(covered[i..], cs) == CoveredValues(covered, cs)
    {
      ghost var rest, before := CoveredValues(covered[i + 1..], cs), values;
      assert covered[i..][1..] == covered[i + 1..];
      assert cs[0..] == cs;
      for j := 0 to |cs|
        invariant values + ValuesFor(covered[i], cs[j..]) == before + ValuesFor(covered[i], cs)
      {
        ghost var more := ValuesFor(covered[i], cs[j + 1..]);
        assert cs[j..][1..] == cs[j + 1..];
        if cs[j].column == covered[i] {
          assert values + ([cs[j].value] + more) == (values + [cs[j].value]) + more;
          values := values + [cs[j].value];
        } else {
          assert [] + more == more;
        }
      }
      assert values + [] == values;
      assert before + (ValuesFor(covered[i], cs) + rest) == values + rest;
    }
    assert values + [] == values;
  }

  /* ---------- SELECT ---------- */

  ghost predicate PlainValues(cs: seq<Condition>) {
    forall i :: 0 <= i < |cs| ==> Plain(cs[i].value)
  }

  lemma {:induction false} ValuesForPlain(name: Bytes, cs: seq<Condition>)
    requires PlainValues(cs)
    ensures AllPlain(ValuesFor(name, cs))
  {
    if cs == [] {
    } else {
      ValuesForPlain(name, cs[1..]);
    }
  }

  lemma {:induction false} CoveredValuesPlain(covered: seq<Bytes>, cs: seq<Condition>)
    requires PlainValues(cs)
    ensures AllPlain(CoveredValues(covered, cs))
  {
    if covered == [] {
    } else {
      ValuesForPlain(covered[0], cs);
      CoveredValuesPlain(covered[1..], cs);
    }
  }

  /** The rows the index path returns, and the rows the query asks for. */
  ghost function Kept(t: Table, data: Data, c: Choice, cs: seq<Condition>): set<Row> {
    set x | x in AllRows(data) && IndexKeeps(t, c, cs, x)
  }

  ghost function Answer(t: Table, data: Data, cs: seq<Condition>): set<Row> {
    set x | x in AllRows(data) && Matches(t, x, cs)
  }

  lemma HitsAreSelected(t: Table, data: Data, c: Choice, cs: seq<Condition>)
    requires forall pk :: pk in data ==> |data[pk]| == |t.columns|
    ensures var hits := RowsOf(data, Hits(t, c.index, data, CoveredValues(c.covered, cs)));
            && (Full(c) ==> hits == Kept(t, data, c, cs))
            && (!Full(c) ==> Survivors(t, hits, cs, c.covered) == Kept(t, data, c, cs))
            && forall x <- hits :: |x| == |t.columns|
  {
  }

  lemma ScanSurvivors(t: Table, data: Data, cs: seq<Condition>)
    ensures Survivors(t, AllRows(data), cs, []) == Answer(t, data, cs)
  {
  }

  lemma RowSizes(m: Store, name: Bytes, t: Table, data: Data, rows: seq<Row>)
    requires RowsStored(m, name, t, data) && Lists(rows, AllRows(data))
    ensures forall x <- rows :: |x| == |t.columns|
  {
  }

  method RunFullTableScanAndFilterConditions(txn: Transaction, t: Table, name: Bytes, cs: seq<Condition>,
                                             ghost a: Abs, ghost m: Store, ghost data: Data)
    returns (rows: Result<seq<Row>>)
    requires Reading(txn, a, m) && RowsStored(m, name, t, data)
    ensures Meaningful(t, cs) ==> rows.Ok? && Lists(rows.value, Answer(t, data, cs))
  {
    hide Reading, RowsStored, Lists, Answer, Survivors, Meaningful, AllRows;
    var all := FullTableScan(txn, t, name, a, m, data);
    RowSizes(m, name, t, data, all.value);
    rows := FilterQueryConditions(t, cs, [], all.value, AllRows(data));
    ScanSurvivors(t, data, cs);
  }

  /** The index path on its own terms: whatever the operators, exactly the rows that IndexKeeps describes. */
  method RunIndexPath(txn: Transaction, t: Table, name: Bytes, c: Choice, cs: seq<Condition>,
                      ghost a: Abs, ghost m: Store, ghost data: Data)
    returns (rows: Result<seq<Row>>)
    requires Reading(txn, a, m) && RowsOnce(txn, name) && WellFormed(name, t) && TableIn(m, name, t, data)
    requires c.index in t.indexes && PlainValues(cs)
    ensures Full(c) || Meaningful(t, cs) ==> rows.Ok? && Lists(rows.value, Kept(t, data, c, cs))
  {
    hide Reading, RowsOnce, RowsStored, Lists, Kept, Survivors, Meaningful, RowsOf, Hits, IndexStored, CoveredValues, AllPlain, PlainValues;
    var values := CoveredColumnValues(c.covered, cs);
    CoveredValuesPlain(c.covered, cs);
    var pks := SecondaryIndexPrefixScan(txn, t, name, c.index, values, a, m, data);
    SizesStored(m, name, t, data);
    HitsExist(t, c.index, data, values);
    rows := RowsForPks(txn, t, name, pks, a, m, data);
    HitsAreSelected(t, data, c, cs);
    if |c.index.columns| == |c.covered| { return rows; }
    ListedSizes(rows.value, RowsOf(data, pks), |t.columns|);
    rows := FilterQueryConditions(t, cs, c.covered, rows.value, RowsOf(data, pks));
  }

  lemma HitsExist(t: Table, ix: Index, data: Data, lead: seq<Bytes>)
    requires forall pk :: pk in data ==> |data[pk]| == |t.columns|
    ensures forall pk :: pk in Hits(t, ix, data, lead) ==> pk in data
  {
  }

  lemma ListedSizes(rows: seq<Row>, want: set<Row>, n: nat)
    requires Lists(rows, want) && forall x <- want :: |x| == n
    ensures forall x <- rows :: |x| == n
  {
  }

  predicate PrimaryKeyQuery(t: Table, cs: seq<Condition>)
    requires 0 <= t.pkPosition < |t.columns|
  {
    |cs| == 1 && cs[0].column == t.columns[t.pkPosition].name && cs[0].op == EQ
  }

  /** The plan the planner takes is one that cannot change the answer. */
  ghost predicate SafeQuery(t: Table, cs: seq<Condition>) {
    var c := Choose(t.indexes, cs, None);
    c.Some? ==> PlanSafe(c.value, cs)
  }

  lemma IndexIsKnown(name: Bytes, t: Table, ix: Index)
    requires WellFormed(name, t) && ix in t.indexes
    ensures Known(ix.columns, t.columns) && Catalog.DistinctNames(t.columns)
  {
  }

  /** A safe index plan and the full scan with its filter have the same answer. */
  lemma KeptIsAnswer(name: Bytes, t: Table, data: Data, c: Choice, cs: seq<Condition>)
    requires WellFormed(name, t) && Usable(t.indexes, cs, c) && PlanSafe(c, cs)
    requires forall pk :: pk in data ==> |data[pk]| == |t.columns|
    ensures Kept(t, data, c, cs) == Answer(t, data, cs)
  {
    hide IndexKeeps, Matches, WellFormed, PlanSafe;
    IndexIsKnown(name, t, c.index);
    forall x | x in AllRows(data) ensures IndexKeeps(t, c, cs, x) <==> Matches(t, x, cs) {
      PlansAgree(t, c, cs, x);
    }
  }

  /** A table that holds one row has that row in the answers exactly if it is kept, or meets the query. */
  lemma OneRowAnswers(t: Table, c: Choice, cs: seq<Condition>, row: Row)
    ensures var data: Data := map[PkOf(t, row) := row];
            && (row in Kept(t, data, c, cs) <==> IndexKeeps(t, c, cs, row))
            && (row in Answer(t, data, cs) <==> Matches(t, row, cs))
  {
    var data: Data := map[PkOf(t, row) := row];
    assert data[PkOf(t, row)] == row;
    assert row in AllRows(data);
  }

  lemma WitnessIsGood(name: Bytes, t: Table, cs: seq<Condition>, bad: nat)
    requires WellFormed(name, t) && PlainValues(cs) && NoEmptyValue(cs)
    requires forall p :: 0 <= p < |t.columns| ==> t.columns[p].kind == 1
    requires forall i :: 0 <= i < |cs| ==> |cs[i].value| + 1 < TWO_32
    requires !Mentions(cs, t.columns[t.pkPosition].name)
    ensures GoodRow(t, WitnessRow(t, cs, bad))
  {
    var row := WitnessRow(t, cs, bad);
    forall p | 0 <= p < |row| ensures Plain(row[p]) && |row[p]| < TWO_32 {}
    assert PkOf(t, row) == [1];
    forall n | 0 <= n < |t.indexes| ensures AllPlain(IndexValues(t.indexes[n].columns, t.columns, row)) {
      var names := t.indexes[n].columns;
      IndexValuesAre(names, t.columns, row);
      forall k | 0 <= k < |names| ensures Plain(IndexValues(names, t.columns, row)[k]) {
        var p := KnownAt(t, names, k);
      }
    }
  }

  /** And the condition is exact for tables of strings: an index plan that is not safe gives a wrong
      answer on the table that holds one certain row, which an insert accepts. */
  lemma UnsafeChangesAnswer(name: Bytes, t: Table, c: Choice, cs: seq<Condition>) returns (row: Row)
    requires WellFormed(name, t) && Usable(t.indexes, cs, c) && !PlanSafe(c, cs)
    requires Meaningful(t, cs) && OnePerColumn(cs) && NoEmptyValue(cs) && PlainValues(cs)
    requires forall p :: 0 <= p < |t.columns| ==> t.columns[p].kind == 1
    requires forall i :: 0 <= i < |cs| ==> |cs[i].value| + 1 < TWO_32
    requires !Mentions(cs, t.columns[t.pkPosition].name)
    ensures GoodRow(t, row)
    ensures var data: Data := map[PkOf(t, row) := row]; Kept(t, data, c, cs) != Answer(t, data, cs)
  {
    hide GoodRow, IndexKeeps, Matches, WitnessRow, PlanSafe, Kept, Answer;
    IndexIsKnown(name, t, c.index);
    var bad := UnsafeWitness(t, c, cs);
    row := WitnessRow(t, cs, bad);
    WitnessIsGood(name, t, cs, bad);
    OneRowAnswers(t, c, cs, row);
  }

  /** What a query for one primary key asks for. */
  lemma PrimaryKeyAnswer(name: Bytes, t: Table, data: Data, cs: seq<Condition>)
    requires WellFormed(name, t) && PrimaryKeyQuery(t, cs)
    requires forall pk :: pk in data ==> |data[pk]| == |t.columns| && PkOf(t, data[pk]) == pk
    ensures Answer(t, data, cs) == if cs[0].value in data then {data[cs[0].value]} else {}
  {
    PositionOf(t, cs[0].column, t.pkPosition);
    forall x | x in AllRows(data) ensures Matches(t, x, cs) <==> PkOf(t, x) == cs[0].value {}
    if cs[0].value in data {
      assert data[cs[0].value] in Answer(t, data, cs);
    }
  }

  lemma EverythingMatches(t: Table, data: Data)
    ensures Answer(t, data, []) == AllRows(data)
  {
  }

  lemma ListsOne(x: Row)
    ensures Lists([x], {x})
  {
  }

  method RunPlanned(txn: Transaction, t: Table, name: Bytes, cs: seq<Condition>,
                    ghost a: Abs, ghost m: Store, ghost data: Data)
    returns (rows: Result<seq<Row>>)
    requires Reading(txn, a, m) && RowsOnce(txn, name) && WellFormed(name, t) && TableIn(m, name, t, data) && PlainValues(cs)
    ensures var c := Choose(t.indexes, cs, None);
            c.Some? && (Full(c.value) || Meaningful(t, cs)) ==> rows.Ok? && Lists(rows.value, Kept(t, data, c.value, cs))
    ensures Meaningful(t, cs) && SafeQuery(t, cs) ==> rows.Ok? && Lists(rows.value, Answer(t, data, cs))
  {
    hide Reading, RowsOnce, RowsStored, Lists, Kept, Answer, Meaningful, IndexStored, PlainValues, WellFormed, PlanSafe, Choose;
    SizesStored(m, name, t, data);
    var c := ChooseIndex(t.indexes, cs);
    if c.None? {
      rows := RunFullTableScanAndFilterConditions(txn, t, name, cs, a, m, data);
    } else {
      ChoiceIsUsable(t.indexes, cs, None);
      rows := RunIndexPath(txn, t, name, c.value, cs, a, m, data);
      if PlanSafe(c.value, cs) { KeptIsAnswer(name, t, data, c.value, cs); }
    }
  }

  /** SelectFromTable. The transaction's snapshot m holds the rows data of the table. Through an index
      it lists exactly the rows the plan keeps; whichever plan is taken, a safe query lists exactly
      the rows that meet it, each once. A query for one primary key that is not there reports an
      error where the scan would list nothing. */
  method SelectFromTable(txn: Transaction, tables: map<Bytes, Table>, name: Bytes, cs: seq<Condition>,
                         ghost a: Abs, ghost m: Store, ghost data: Data)
    returns (rows: Result<seq<Row>>)
    requires Reading(txn, a, m) && RowsOnce(txn, name) && PlainValues(cs)
    requires name in tables ==> WellFormed(name, tables[name]) && TableIn(m, name, tables[name], data)
    ensures rows.Err? <== name !in tables || tables[name].columns[tables[name].pkPosition].name == []
    ensures name in tables && tables[name].columns[tables[name].pkPosition].name != [] ==>
              var t := tables[name];
              && (PrimaryKeyQuery(t, cs) ==> rows == if cs[0].value in data then Ok([data[cs[0].value]]) else Err)
              && (!PrimaryKeyQuery(t, cs) && cs != [] && Choose(t.indexes, cs, None).Some?
                  && (Full(Choose(t.indexes, cs, None).value) || Meaningful(t, cs)) ==>
                    rows.Ok? && Lists(rows.value, Kept(t, data, Choose(t.indexes, cs, None).value, cs)))
              && (Meaningful(t, cs) && SafeQuery(t, cs) && !(PrimaryKeyQuery(t, cs) && cs[0].value !in data) ==>
                    rows.Ok? && Lists(rows.value, Answer(t, data, cs)))
  {
    hide Reading, RowsOnce, RowsStored, Lists, Answer, Meaningful, SafeQuery, IndexStored, PlainValues, Choose;
    if name !in tables { return Err; }
    var t := tables[name];
    var pkColumn: Bytes := [];
    for i := 0 to |t.columns|
      invariant pkColumn == if i > t.pkPosition then t.columns[t.pkPosition].name else []
    {
      if i == t.pkPosition { pkColumn := t.columns[i].name; }
    }
    if pkColumn == [] { return Err; }
    PksAre(m, name, t, data);
    SizesStored(m, name, t, data);
    if |cs| == 1 && cs[0].column == pkColumn && cs[0].op == EQ {
      var row := GetRow(txn, t, name, cs[0].value, a, m, data);
      PrimaryKeyAnswer(name, t, data, cs);
      if row.Err? { return Err; }
      ListsOne(row.value);
      return Ok([row.value]);
    }
    if |cs| == 0 {
      EverythingMatches(t, data);
      rows := FullTableScan(txn, t, name, a, m, data);
      return rows;
    }
    rows := RunPlanned(txn, t, name, cs, a, m, data);
  }
}
