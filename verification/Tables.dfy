/** Tables in the key space (db/db.go InsertIntoTable, db/create.go createTable): what one insert
    writes, and what the whole key space then says about every table. */
module Tables {
  import opened Bytes
  import opened Rows
  import opened Catalog
  import opened TableKeys

  type Row = seq<Bytes>
  type Puts = seq<(Bytes, Bytes)>

  datatype Table = Table(columns: seq<Column>, pkPosition: int, indexes: seq<Index>)

  function TypeOf(kind: Byte): DataType {
    if kind == 0 then Int else if kind == 1 then String else Bool
  }

  function Types(t: Table): (types: seq<DataType>)
    ensures |types| == |t.columns|
  {
    seq(|t.columns|, i requires 0 <= i < |t.columns| => TypeOf(t.columns[i].kind))
  }

  function PkOf(t: Table, row: Row): Bytes {
    if 0 <= t.pkPosition < |row| then row[t.pkPosition] else []
  }

  /* ---------- What an insert writes ---------- */

  /** The row's values of every column of that name. */
  function ValuesOf(name: Bytes, columns: seq<Column>, row: Row): seq<Bytes>
    requires |row| == |columns|
  {
    if columns == [] then []
    else (if columns[0].name == name then [row[0]] else []) + ValuesOf(name, columns[1..], row[1..])
  }

  function IndexValues(names: seq<Bytes>, columns: seq<Column>, row: Row): seq<Bytes>
    requires |row| == |columns|
  {
    if names == [] then []
    else ValuesOf(names[0], columns, row) + IndexValues(names[1..], columns, row)
  }

  /** The entry of one index; None where the insert gives up. */
  function IndexPut(name: Bytes, t: Table, ix: Index, row: Row): Option<(Bytes, Bytes)>
    requires |row| == |t.columns|
  {
    var values := IndexValues(ix.columns, t.columns, row);
    var pk := if ix.columns == [] then [] else PkOf(t, row);
    if |values| != |ix.columns| || pk == [] then None
    else Some((IndexKey(name, ix.name, values, pk), []))
  }

  function IndexPuts(name: Bytes, t: Table, ixs: seq<Index>, row: Row): Option<Puts>
    requires |row| == |t.columns|
  {
    if ixs == [] then Some([])
    else
      var head := IndexPut(name, t, ixs[0], row);
      var rest := IndexPuts(name, t, ixs[1..], row);
      if head.None? || rest.None? then None else Some([head.value] + rest.value)
  }

  /** Refused reports an error; Dropped rolls back and reports none. */
  datatype Insert = Refused | Dropped | Writes(puts: Puts)

  function InsertWrites(name: Bytes, t: Table, row: Row): Insert {
    if |row| != |t.columns| then Refused
    else
      var value := EncodeRow(Types(t), row);
      var entries := IndexPuts(name, t, t.indexes, row);
      if value.None? then Refused
      else if entries.None? then Dropped
      else Writes([(RowKey(name, PkOf(t, row)), value.value)] + entries.value)
  }

  /* ---------- The bytes of a row, by the kinds of its columns ---------- */

  /** Four bytes, the highest first. */
  ghost predicate FourBytes(x: Bytes, n: int) {
    && |x| == 4
    && 0x100_0000 * x[0] as int + 0x1_0000 * x[1] as int + 0x100 * x[2] as int + x[3] as int == n % 0x1_0000_0000
  }

  /** What a column of that kind (0 INT, 1 STRING, 2 BOOL) stores for a text. */
  ghost predicate IsCell(kind: Byte, v: Bytes, x: Bytes) {
    && (kind == 0 ==> Atoi(v).Some? && FourBytes(x, Atoi(v).value))
    && (kind == 1 ==> |x| == 4 + |v| && FourBytes(x[..4], |v|) && x[4..] == v)
    && (kind == 2 ==> (Atoi(v) == Some(0) && x == [0]) || (Atoi(v) == Some(1) && x == [1]))
  }

  /** The texts a column of that kind refuses. */
  ghost predicate RefusedText(kind: Byte, v: Bytes) {
    || (kind == 0 && Atoi(v).None?)
    || (kind == 2 && Atoi(v) !in {Some(0), Some(1)})
  }

  lemma CellIs(kind: Byte, v: Bytes)
    requires kind <= 2
    ensures EncodeValue(TypeOf(kind), v).None? <==> RefusedText(kind, v)
    ensures EncodeValue(TypeOf(kind), v).Some? ==> IsCell(kind, v, EncodeValue(TypeOf(kind), v).value)
  {
    hide Atoi, U32;
    if kind == 0 && Atoi(v).Some? { FourBytesOf(Low32(Atoi(v).value)); }
    if kind == 1 { FourBytesOf(|v|); }
  }

  lemma FourBytesOf(n: nat)
    ensures FourBytes(U32(n), n)
  {
    hide U32;
    U32Truncates(n);
    BigEndian32(n % TWO_32);
  }

  /** The cells one after another. */
  function Laid(cells: seq<Bytes>): Bytes {
    if cells == [] then [] else cells[0] + Laid(cells[1..])
  }

  lemma {:induction false} CellsOf(columns: seq<Column>, row: Row) returns (cells: seq<Bytes>)
    requires |row| == |columns| && forall c <- columns :: c.kind <= 2
    ensures var types := Types(Table(columns, 0, []));
            && (EncodeRow(types, row).None? <==> exists i :: 0 <= i < |row| && RefusedText(columns[i].kind, row[i]))
            && (EncodeRow(types, row).Some? ==>
                  && |cells| == |row| && EncodeRow(types, row).value == Laid(cells)
                  && forall i :: 0 <= i < |row| ==> IsCell(columns[i].kind, row[i], cells[i]))
  {
    hide EncodeValue, IsCell, RefusedText, TypeOf;
    var types := Types(Table(columns, 0, []));
    cells := [];
    if row != [] {
      assert columns[0] in columns && forall c <- columns[1..] :: c in columns;
      CellIs(columns[0].kind, row[0]);
      var rest := CellsOf(columns[1..], row[1..]);
      assert types[1..] == Types(Table(columns[1..], 0, []));
      assert forall i :: 1 <= i < |row| ==> columns[i] == columns[1..][i - 1] && row[i] == row[1..][i - 1];
      assert (exists i :: 0 <= i < |row| && RefusedText(columns[i].kind, row[i])) <==>
             RefusedText(columns[0].kind, row[0]) || exists i :: 0 <= i < |row[1..]| && RefusedText(columns[1..][i].kind, row[1..][i]) by {
        if i :| 0 <= i < |row[1..]| && RefusedText(columns[1..][i].kind, row[1..][i]) {
          assert RefusedText(columns[i + 1].kind, row[i + 1]);
        }
      }
      if EncodeRow(types, row).Some? {
        cells := [EncodeValue(types[0], row[0]).value] + rest;
        assert cells[1..] == rest;
      }
    }
  }

  /** An insert is refused exactly if the number of texts is wrong or a column refuses its text: an INT
      column what is no integer, a BOOL column what is neither 0 nor 1, a STRING column nothing. What it
      writes first is the row: under the table's name, a colon and the text of the key column, one cell
      for each column, in column order. */
  lemma InsertByKind(name: Bytes, t: Table, row: Row) returns (cells: seq<Bytes>)
    requires forall c <- t.columns :: c.kind <= 2
    ensures InsertWrites(name, t, row).Refused? <==>
              |row| != |t.columns| || exists i :: 0 <= i < |row| && RefusedText(t.columns[i].kind, row[i])
    ensures InsertWrites(name, t, row).Writes? ==>
              var puts := InsertWrites(name, t, row).puts;
              && |puts| == 1 + |t.indexes| && |cells| == |row| && puts[0].1 == Laid(cells)
              && (forall i :: 0 <= i < |row| ==> IsCell(t.columns[i].kind, row[i], cells[i]))
              && (0 <= t.pkPosition < |row| ==> puts[0].0 == name + [58] + row[t.pkPosition])
  {
    hide EncodeRow, IsCell, RefusedText, IndexPut;
    cells := [];
    if |row| == |t.columns| {
      cells := CellsOf(t.columns, row);
      assert Types(t) == Types(Table(t.columns, 0, []));
      OnePutEach(name, t, t.indexes, row);
    }
  }

  /** The text of the key column, if there is one that is not empty. */
  ghost predicate HasKeyText(t: Table, row: Row) {
    0 <= t.pkPosition < |row| && row[t.pkPosition] != []
  }

  /** No entry can be made: the index has no columns, the row has more or fewer values under them than
      there are columns, or the key text is empty. */
  ghost predicate NoEntry(t: Table, ix: Index, row: Row)
    requires |row| == |t.columns|
  {
    ix.columns == [] || |IndexValues(ix.columns, t.columns, row)| != |ix.columns| || !HasKeyText(t, row)
  }

  lemma {:induction false} EntriesExactly(name: Bytes, t: Table, ixs: seq<Index>, row: Row)
    requires |row| == |t.columns|
    ensures IndexPuts(name, t, ixs, row).None? <==> exists i :: 0 <= i < |ixs| && NoEntry(t, ixs[i], row)
    ensures IndexPuts(name, t, ixs, row).Some? ==>
              var puts := IndexPuts(name, t, ixs, row).value;
              && |puts| == |ixs|
              && forall i :: 0 <= i < |ixs| && HasKeyText(t, row) ==>
                   puts[i] == (IndexKey(name, ixs[i].name, IndexValues(ixs[i].columns, t.columns, row), row[t.pkPosition]), [])
    decreases |ixs|
  {
    hide IndexValues, IndexKey, NoEntry;
    if ixs != [] {
      EntriesExactly(name, t, ixs[1..], row);
      assert forall i :: 1 <= i < |ixs| ==> ixs[i] == ixs[1..][i - 1];
      OneEntryExactly(name, t, ixs[0], row);
      if i :| 0 <= i < |ixs[1..]| && NoEntry(t, ixs[1..][i], row) { assert NoEntry(t, ixs[i + 1], row); }
    }
  }

  lemma OneEntryExactly(name: Bytes, t: Table, ix: Index, row: Row)
    requires |row| == |t.columns|
    ensures IndexPut(name, t, ix, row).None? <==> NoEntry(t, ix, row)
  {
  }

  /** An insert that is not refused is dropped without an error exactly if no entry can be made for some
      index. Otherwise it writes, behind the row, one empty entry for each index, whose key holds the
      values under the columns of the index and then the key text. */
  lemma DroppedExactly(name: Bytes, t: Table, row: Row)
    ensures InsertWrites(name, t, row).Dropped? <==>
              |row| == |t.columns| && EncodeRow(Types(t), row).Some? && exists i :: 0 <= i < |t.indexes| && NoEntry(t, t.indexes[i], row)
    ensures InsertWrites(name, t, row).Writes? && HasKeyText(t, row) ==>
              var puts := InsertWrites(name, t, row).puts;
              && |puts| == 1 + |t.indexes|
              && forall i :: 0 <= i < |t.indexes| ==>
                   puts[1 + i] == (IndexKey(name, t.indexes[i].name, IndexValues(t.indexes[i].columns, t.columns, row), row[t.pkPosition]), [])
  {
    hide IndexValues, IndexKey, EncodeRow, IndexPuts, NoEntry;
    if |row| == |t.columns| { EntriesExactly(name, t, t.indexes, row); }
  }

  lemma {:induction false} OnePutEach(name: Bytes, t: Table, ixs: seq<Index>, row: Row)
    requires |row| == |t.columns|
    ensures IndexPuts(name, t, ixs, row).Some? ==> |IndexPuts(name, t, ixs, row).value| == |ixs|
  {
    hide IndexPut;
    if ixs != [] { OnePutEach(name, t, ixs[1..], row); }
  }

  function Apply(m: Store, puts: Puts): Store
    decreases |puts|
  {
    if puts == [] then m else Apply(m[puts[0].0 := puts[0].1], puts[1..])
  }

  /* ---------- What the key space says about one table ---------- */

  ghost predicate WellFormed(name: Bytes, t: Table) {
    && Plain(name) && name != INDEX && name != SCHEMA && name != INDEX_CATALOG
    && 0 <= t.pkPosition < |t.columns|
    && Catalog.DistinctNames(t.columns)
    && (forall i :: 0 <= i < |t.indexes| ==> Plain(t.indexes[i].name) && t.indexes[i].columns != [])
    && (forall i :: 0 <= i < |t.indexes| ==> Known(t.indexes[i].columns, t.columns))
    && (forall i, j :: 0 <= i < j < |t.indexes| ==> t.indexes[i].name != t.indexes[j].name)
  }

  /** A row whose texts come back as written and whose key-forming texts contain no colon. */
  ghost predicate GoodRow(t: Table, row: Row) {
    && |row| == |t.columns|
    && CanonicalRow(Types(t), row)
    && Plain(PkOf(t, row)) && PkOf(t, row) != []
    && (forall i :: 0 <= i < |t.indexes| ==> AllPlain(IndexValues(t.indexes[i].columns, t.columns, row)))
  }

  type Data = map<Bytes, Row>

  ghost predicate RowsStored(m: Store, name: Bytes, t: Table, data: Data) {
    && (forall pk :: pk in data ==> GoodRow(t, data[pk]) && PkOf(t, data[pk]) == pk)
    && (forall pk :: pk in data ==> RowKey(name, pk) in m && Some(m[RowKey(name, pk)]) == EncodeRow(Types(t), data[pk]))
    && (forall k :: k in m && HasPrefix(k, RowKey(name, [])) ==> exists pk :: pk in data && k == RowKey(name, pk))
  }

  function EntryKey(name: Bytes, t: Table, ix: Index, row: Row): Bytes
    requires |row| == |t.columns|
  {
    IndexKey(name, ix.name, IndexValues(ix.columns, t.columns, row), PkOf(t, row))
  }

  ghost predicate IndexStored(m: Store, name: Bytes, t: Table, ix: Index, data: Data)
    requires forall pk :: pk in data ==> |data[pk]| == |t.columns|
  {
    && (forall pk :: pk in data ==> EntryKey(name, t, ix, data[pk]) in m && m[EntryKey(name, t, ix, data[pk])] == [])
    && (forall k :: k in m && HasPrefix(k, IndexKey(name, ix.name, [], [])) ==>
          exists pk :: pk in data && k == EntryKey(name, t, ix, data[pk]))
  }

  /** The key space holds exactly these rows of the table, and exactly their index entries. */
  ghost predicate TableIn(m: Store, name: Bytes, t: Table, data: Data) {
    && RowsStored(m, name, t, data)
    && forall ix <- t.indexes :: IndexStored(m, name, t, ix, data)
  }

  /* ---------- Foreign keys ---------- */

  /** A key that no scan of the table meets. */
  ghost predicate Foreign(k: Bytes, name: Bytes, t: Table) {
    && !HasPrefix(k, RowKey(name, []))
    && forall ix <- t.indexes :: !HasPrefix(k, IndexKey(name, ix.name, [], []))
  }

  lemma RowKeyMeets(name: Bytes, other: Bytes, pk: Bytes)
    requires Plain(name) && Plain(other) && Plain(pk)
    ensures HasPrefix(RowKey(other, pk), RowKey(name, [])) <==> other == name
  {
    RowKeyIs(other, pk);
    RowKeyIs(name, pk);
    PrefixFindsExactly([name], [other, pk]);
    assert [name] <= [other, pk] <==> name == other;
  }

  lemma RowKeyMeetsNoIndex(name: Bytes, index: Bytes, other: Bytes, pk: Bytes)
    requires Plain(name) && Plain(index) && Plain(other) && Plain(pk)
    ensures !HasPrefix(RowKey(other, pk), IndexKey(name, index, [], []))
  {
    RowKeyIs(other, pk);
    IndexKeyIs(name, index, [], []);
    assert [INDEX, name, index] + [] == [INDEX, name, index];
    PrefixFindsExactly([INDEX, name, index], [other, pk]);
  }

  lemma IndexKeyMeetsNoRow(name: Bytes, other: Bytes, index: Bytes, values: seq<Bytes>, pk: Bytes)
    requires Plain(name) && name != INDEX && Plain(index) && Plain(other) && AllPlain(values) && Plain(pk)
    ensures !HasPrefix(IndexKey(other, index, values, pk), RowKey(name, []))
  {
    IndexKeyIs(other, index, values, pk);
    RowKeyIs(name, pk);
    var parts := [INDEX, other, index] + values + [pk];
    PrefixFindsExactly([name], parts);
    assert parts[0] == INDEX;
  }

  /** An index scan meets exactly the entries of its own index whose values start with the scanned ones. */
  lemma IndexKeyMeets(name: Bytes, index: Bytes, lead: seq<Bytes>, other: Bytes, index': Bytes, values: seq<Bytes>, pk: Bytes)
    requires Plain(name) && Plain(index) && AllPlain(lead) && Plain(index') && Plain(other) && AllPlain(values) && Plain(pk)
    ensures HasPrefix(IndexKey(other, index', values, pk), IndexKey(name, index, lead, []))
       <==> other == name && index' == index && lead <= values
  {
    IndexKeyIs(other, index', values, pk);
    IndexKeyIs(name, index, lead, pk);
    var want, parts := [INDEX, name, index] + lead, [INDEX, other, index'] + values + [pk];
    PrefixFindsExactly(want, parts);
    if |want| < |parts| && want <= parts {
      assert want[1] == parts[1] && want[2] == parts[2];
      forall i | 0 <= i < |lead| ensures lead[i] == values[i] {
        assert want[3 + i] == parts[3 + i];
      }
      assert lead <= values;
    }
    if other == name && index' == index && lead <= values {
      assert parts[..|want|] == want;
    }
  }

  /* ---------- Writes keep every table described ---------- */

  lemma {:induction false} ApplyForeign(m: Store, puts: Puts, name: Bytes, t: Table, data: Data)
    requires WellFormed(name, t) && TableIn(m, name, t, data)
    requires forall p <- puts :: Foreign(p.0, name, t)
    ensures TableIn(Apply(m, puts), name, t, data)
    decreases |puts|
  {
    if puts == [] {
    } else {
      var k, v := puts[0].0, puts[0].1;
      PutForeign(m, k, v, name, t, data);
      assert forall p <- puts[1..] :: p in puts;
      ApplyForeign(m[k := v], puts[1..], name, t, data);
    }
  }

  lemma PutForeign(m: Store, k: Bytes, v: Bytes, name: Bytes, t: Table, data: Data)
    requires WellFormed(name, t) && TableIn(m, name, t, data) && Foreign(k, name, t)
    ensures TableIn(m[k := v], name, t, data)
  {
    hide EncodeRow, GoodRow, IndexValues, IndexKey, RowKey, EntryKey, WellFormed;
    forall pk | pk in data ensures RowKey(name, pk) != k { RowKeyInjective(name, pk, []); }
    forall ix, pk | ix in t.indexes && pk in data
      ensures |data[pk]| == |t.columns| && EntryKey(name, t, ix, data[pk]) != k
    {
      SizesStored(m, name, t, data);
      EntryMeetsOwnScan(name, t, ix, data[pk]);
    }
  }

  lemma EntryMeetsOwnScan(name: Bytes, t: Table, ix: Index, row: Row)
    requires WellFormed(name, t) && ix in t.indexes && GoodRow(t, row)
    ensures |row| == |t.columns| && HasPrefix(EntryKey(name, t, ix, row), IndexKey(name, ix.name, [], []))
  {
    hide IndexKey, RowKey, CanonicalRow;
    IndexKeyMeets(name, ix.name, [], name, ix.name, IndexValues(ix.columns, t.columns, row), PkOf(t, row));
  }

  lemma {:induction false} IndexPutsAre(name: Bytes, t: Table, ixs: seq<Index>, row: Row)
    requires |row| == |t.columns| && PkOf(t, row) != []
    requires forall ix <- ixs :: ix.columns != [] && |IndexValues(ix.columns, t.columns, row)| == |ix.columns|
    ensures IndexPuts(name, t, ixs, row).Some? && |IndexPuts(name, t, ixs, row).value| == |ixs|
    ensures forall i :: 0 <= i < |ixs| ==> IndexPuts(name, t, ixs, row).value[i] == (EntryKey(name, t, ixs[i], row), [])
  {
    hide IndexKey, IndexValues;
    if ixs == [] {
    } else {
      assert ixs[0] in ixs;
      assert forall ix <- ixs[1..] :: ix in ixs;
      IndexPutsAre(name, t, ixs[1..], row);
    }
  }

  /** With distinct column names every known column has exactly one value. */
  lemma {:induction false} ValuesOfKnown(name: Bytes, columns: seq<Column>, row: Row, p: nat)
    requires |row| == |columns| && Catalog.DistinctNames(columns) && p < |columns| && columns[p].name == name
    ensures ValuesOf(name, columns, row) == [row[p]]
  {
    if p == 0 {
      ValuesOfUnknown(name, columns[1..], row[1..]);
    } else {
      ValuesOfKnown(name, columns[1..], row[1..], p - 1);
    }
  }

  lemma {:induction false} ValuesOfUnknown(name: Bytes, columns: seq<Column>, row: Row)
    requires |row| == |columns| && forall c <- columns :: c.name != name
    ensures ValuesOf(name, columns, row) == []
  {
    if columns == [] {
    } else {
      assert columns[0] in columns;
      assert forall c <- columns[1..] :: c in columns;
      ValuesOfUnknown(name, columns[1..], row[1..]);
    }
  }

  lemma {:induction false} IndexValuesAre(names: seq<Bytes>, columns: seq<Column>, row: Row)
    requires |row| == |columns| && Catalog.DistinctNames(columns) && Known(names, columns)
    ensures |IndexValues(names, columns, row)| == |names|
    ensures forall i, p :: 0 <= i < |names| && 0 <= p < |columns| && columns[p].name == names[i] ==>
              IndexValues(names, columns, row)[i] == row[p]
  {
    if names == [] {
    } else {
      var c :| c in columns && c.name == names[0];
      var q :| 0 <= q < |columns| && columns[q] == c;
      ValuesOfKnown(names[0], columns, row, q);
      assert forall k :: 0 <= k < |names| - 1 ==> names[1..][k] == names[k + 1];
      IndexValuesAre(names[1..], columns, row);
    }
  }

  lemma InsertIsWrites(name: Bytes, t: Table, row: Row)
    requires WellFormed(name, t) && GoodRow(t, row)
    ensures EncodeRow(Types(t), row).Some? && InsertWrites(name, t, row).Writes?
    ensures var puts := InsertWrites(name, t, row).puts;
            && |puts| == 1 + |t.indexes|
            && puts[0] == (RowKey(name, PkOf(t, row)), EncodeRow(Types(t), row).value)
            && forall i :: 1 <= i < |puts| ==> puts[i] == (EntryKey(name, t, t.indexes[i - 1], row), [])
  {
    hide EncodeRow, IndexValues, IndexKey, RowKey, CanonicalRow;
    CanonicalRowEncodes(Types(t), row);
    forall ix | ix in t.indexes ensures ix.columns != [] && |IndexValues(ix.columns, t.columns, row)| == |ix.columns| {
      var i :| 0 <= i < |t.indexes| && t.indexes[i] == ix;
      IndexValuesAre(ix.columns, t.columns, row);
    }
    IndexPutsAre(name, t, t.indexes, row);
  }

  /* ---------- One more row ---------- */

  lemma {:induction false} ApplyKeys(m: Store, puts: Puts)
    ensures forall k :: k in Apply(m, puts) <==> k in m || exists i :: 0 <= i < |puts| && puts[i].0 == k
    ensures forall k :: k in m && (forall i :: 0 <= i < |puts| ==> puts[i].0 != k) ==> Apply(m, puts)[k] == m[k]
    decreases |puts|
  {
    if puts == [] {
    } else {
      ApplyKeys(m[puts[0].0 := puts[0].1], puts[1..]);
      assert forall i :: 1 <= i < |puts| ==> puts[i] == puts[1..][i - 1];
      assert puts == [puts[0]] + puts[1..];
    }
  }

  /** A key that was written holds what some write put there. */
  lemma {:induction false} ApplyHolds(m: Store, puts: Puts, i: nat)
    requires i < |puts|
    ensures puts[i].0 in Apply(m, puts) && (puts[i].0, Apply(m, puts)[puts[i].0]) in puts
    decreases |puts|
  {
    var m', k := m[puts[0].0 := puts[0].1], puts[i].0;
    var rest := puts[1..];
    assert forall p <- rest :: p in puts;
    if j :| 0 <= j < |rest| && rest[j].0 == k {
      ApplyHolds(m', rest, j);
    } else {
      forall j | 1 <= j < |puts| ensures puts[j] == rest[j - 1] {}
      ApplyKeys(m', rest);
    }
  }

  /** Buffering the writes and overlaying the buffer later is the same as writing them. */
  lemma {:induction false} BufferedApply(m: Store, buffer: Store, puts: Puts)
    ensures m + Apply(buffer, puts) == Apply(m + buffer, puts)
    decreases |puts|
  {
    if puts == [] {
    } else {
      var k, v := puts[0].0, puts[0].1;
      assert m + buffer[k := v] == (m + buffer)[k := v];
      BufferedApply(m, buffer[k := v], puts[1..]);
    }
  }

  lemma EntryIsNoRow(name: Bytes, t: Table, ix: Index, row: Row)
    requires WellFormed(name, t) && ix in t.indexes && GoodRow(t, row)
    ensures !HasPrefix(EntryKey(name, t, ix, row), RowKey(name, []))
  {
    IndexKeyMeetsNoRow(name, name, ix.name, IndexValues(ix.columns, t.columns, row), PkOf(t, row));
  }

  lemma RowKeyInjective(name: Bytes, pk: Bytes, pk': Bytes)
    ensures RowKey(name, pk) == RowKey(name, pk') <==> pk == pk'
    ensures HasPrefix(RowKey(name, pk), RowKey(name, []))
  {
    assert RowKey(name, pk)[|name| + 1..] == pk && RowKey(name, pk')[|name| + 1..] == pk';
    assert RowKey(name, pk) == RowKey(name, []) + pk;
  }

  /** The writes of one good row. */
  ghost predicate RowWrites(puts: Puts, name: Bytes, t: Table, row: Row) {
    && |row| == |t.columns| && |puts| == 1 + |t.indexes|
    && puts[0].0 == RowKey(name, PkOf(t, row)) && Some(puts[0].1) == EncodeRow(Types(t), row)
    && forall i :: 1 <= i < |puts| ==> puts[i] == (EntryKey(name, t, t.indexes[i - 1], row), [])
  }

  /** The row's own key gets the row; every other row key is left alone. */
  lemma RowWritten(m: Store, puts: Puts, name: Bytes, t: Table, row: Row)
    requires WellFormed(name, t) && GoodRow(t, row) && RowWrites(puts, name, t, row)
    ensures var m', key := Apply(m, puts), RowKey(name, PkOf(t, row));
            && key in m' && m'[key] == puts[0].1
            && (forall k :: k in m && HasPrefix(k, RowKey(name, [])) && k != key ==> k in m' && m'[k] == m[k])
            && (forall k :: k in m' && HasPrefix(k, RowKey(name, [])) && k != key ==> k in m)
  {
    hide EncodeRow, GoodRow, IndexValues, IndexKey, RowKey, EntryKey;
    forall i | 1 <= i < |puts| ensures !HasPrefix(puts[i].0, RowKey(name, [])) {
      EntryIsNoRow(name, t, t.indexes[i - 1], row);
    }
    var rest := puts[1..];
    assert forall i :: 0 <= i < |rest| ==> rest[i] == puts[i + 1];
    RowKeyInjective(name, PkOf(t, row), []);
    ApplyKeys(m[puts[0].0 := puts[0].1], rest);
  }

  lemma InsertKeepsRows(m: Store, puts: Puts, name: Bytes, t: Table, data: Data, row: Row)
    requires WellFormed(name, t) && RowsStored(m, name, t, data) && GoodRow(t, row) && RowWrites(puts, name, t, row)
    requires PkOf(t, row) !in data
    ensures RowsStored(Apply(m, puts), name, t, data[PkOf(t, row) := row])
  {
    hide EncodeRow, GoodRow, IndexValues, IndexKey, RowKey, EntryKey, WellFormed;
    var m', pk := Apply(m, puts), PkOf(t, row);
    var data' := data[pk := row];
    RowWritten(m, puts, name, t, row);
    forall q | q in data ensures RowKey(name, q) in m' && m'[RowKey(name, q)] == m[RowKey(name, q)] {
      RowKeyInjective(name, q, pk);
    }
    forall k | k in m' && HasPrefix(k, RowKey(name, [])) ensures exists q :: q in data' && k == RowKey(name, q) {
      if k == RowKey(name, pk) {
        assert pk in data';
      } else {
        var q :| q in data && k == RowKey(name, q);
        assert q in data';
      }
    }
  }

  lemma EntryHolds(m: Store, puts: Puts, name: Bytes, t: Table, row: Row, n: nat)
    requires WellFormed(name, t) && GoodRow(t, row) && RowWrites(puts, name, t, row) && n < |t.indexes|
    ensures var k := EntryKey(name, t, t.indexes[n], row); k in Apply(m, puts) && Apply(m, puts)[k] == []
  {
    hide EncodeRow, IndexValues, IndexKey, RowKey, CanonicalRow, EntryKey, WellFormed;
    ApplyHolds(m, puts, 1 + n);
    EntryIsNoRow(name, t, t.indexes[n], row);
    RowKeyInjective(name, PkOf(t, row), []);
  }

  /** A key with an empty value keeps one. */
  lemma EntryElse(m: Store, puts: Puts, name: Bytes, t: Table, row: Row, k: Bytes)
    requires RowWrites(puts, name, t, row) && k in m && m[k] == [] && !HasPrefix(k, RowKey(name, []))
    ensures k in Apply(m, puts) && Apply(m, puts)[k] == []
  {
    hide EncodeRow, RowKey, EntryKey;
    ApplyKeys(m, puts);
    RowKeyInjective(name, PkOf(t, row), []);
    if i :| 0 <= i < |puts| && puts[i].0 == k {
      ApplyHolds(m, puts, i);
    }
  }

  lemma InsertKeepsIndex(m: Store, puts: Puts, name: Bytes, t: Table, data: Data, row: Row, n: nat)
    requires WellFormed(name, t) && GoodRow(t, row) && RowWrites(puts, name, t, row) && n < |t.indexes|
    requires forall pk :: pk in data ==> |data[pk]| == |t.columns| && GoodRow(t, data[pk])
    requires IndexStored(m, name, t, t.indexes[n], data) && PkOf(t, row) !in data
    ensures IndexStored(Apply(m, puts), name, t, t.indexes[n], data[PkOf(t, row) := row])
  {
    hide EncodeRow, IndexValues, IndexKey, RowKey, CanonicalRow;
    var m', pk, ix := Apply(m, puts), PkOf(t, row), t.indexes[n];
    var data' := data[pk := row];
    ApplyKeys(m, puts);
    assert puts[1 + n].0 == EntryKey(name, t, ix, row);
    EntryHolds(m, puts, name, t, row, n);
    forall q | q in data ensures m'[EntryKey(name, t, ix, data[q])] == [] {
      EntryIsNoRow(name, t, ix, data[q]);
      EntryElse(m, puts, name, t, row, EntryKey(name, t, ix, data[q]));
    }
    forall k | k in m' && HasPrefix(k, IndexKey(name, ix.name, [], []))
      ensures exists q :: q in data' && k == EntryKey(name, t, ix, data'[q])
    {
      if k in m {
        var q :| q in data && k == EntryKey(name, t, ix, data[q]);
        assert q in data' && data'[q] == data[q];
      } else {
        var i :| 0 <= i < |puts| && puts[i].0 == k;
        if i == 0 {
          RowKeyMeetsNoIndex(name, ix.name, name, pk);
        } else {
          var other := t.indexes[i - 1];
          assert puts[i].0 == EntryKey(name, t, other, row);
          IndexKeyMeets(name, ix.name, [], name, other.name, IndexValues(other.columns, t.columns, row), pk);
          assert other == ix;
          assert pk in data' && data'[pk] == row;
        }
      }
    }
  }

  /** Inserting a row under a fresh primary key adds exactly that row and its index entries. */
  lemma InsertAddsRow(m: Store, name: Bytes, t: Table, data: Data, row: Row)
    requires WellFormed(name, t) && TableIn(m, name, t, data) && GoodRow(t, row) && PkOf(t, row) !in data
    ensures InsertWrites(name, t, row).Writes?
    ensures TableIn(Apply(m, InsertWrites(name, t, row).puts), name, t, data[PkOf(t, row) := row])
  {
    hide EncodeRow, IndexValues, IndexKey, RowKey, CanonicalRow, IndexStored, RowsStored, InsertWrites;
    InsertIsWrites(name, t, row);
    var puts := InsertWrites(name, t, row).puts;
    assert RowWrites(puts, name, t, row);
    SizesStored(m, name, t, data);
    GoodStored(m, name, t, data);
    InsertKeepsRows(m, puts, name, t, data, row);
    forall ix | ix in t.indexes ensures IndexStored(Apply(m, puts), name, t, ix, data[PkOf(t, row) := row]) {
      var n :| 0 <= n < |t.indexes| && t.indexes[n] == ix;
      InsertKeepsIndex(m, puts, name, t, data, row, n);
    }
  }

  lemma SizesStored(m: Store, name: Bytes, t: Table, data: Data)
    requires RowsStored(m, name, t, data)
    ensures forall pk :: pk in data ==> |data[pk]| == |t.columns|
  {
  }

  lemma GoodStored(m: Store, name: Bytes, t: Table, data: Data)
    requires RowsStored(m, name, t, data)
    ensures forall pk :: pk in data ==> GoodRow(t, data[pk])
  {
  }

  /** It leaves every other table as it was. */
  lemma InsertLeavesOthers(m: Store, name: Bytes, t: Table, data: Data, other: Bytes, t': Table, row: Row)
    requires WellFormed(name, t) && TableIn(m, name, t, data)
    requires WellFormed(other, t') && GoodRow(t', row) && other != name
    ensures InsertWrites(other, t', row).Writes?
    ensures TableIn(Apply(m, InsertWrites(other, t', row).puts), name, t, data)
  {
    hide EncodeRow, IndexValues, IndexKey, RowKey, CanonicalRow, IndexStored, RowsStored, InsertWrites;
    InsertIsWrites(other, t', row);
    var puts := InsertWrites(other, t', row).puts;
    forall p | p in puts ensures Foreign(p.0, name, t) {
      var i :| 0 <= i < |puts| && puts[i] == p;
      if i == 0 {
        RowIsForeign(name, t, other, PkOf(t', row));
      } else {
        EntryIsForeign(name, t, other, t', t'.indexes[i - 1], row);
      }
    }
    ApplyForeign(m, puts, name, t, data);
  }

  lemma RowIsForeign(name: Bytes, t: Table, other: Bytes, pk: Bytes)
    requires WellFormed(name, t) && Plain(other) && Plain(pk) && other != name
    ensures Foreign(RowKey(other, pk), name, t)
  {
    RowKeyMeets(name, other, pk);
    forall ix | ix in t.indexes ensures !HasPrefix(RowKey(other, pk), IndexKey(name, ix.name, [], [])) {
      RowKeyMeetsNoIndex(name, ix.name, other, pk);
    }
  }

  lemma EntryIsForeign(name: Bytes, t: Table, other: Bytes, t': Table, ix: Index, row: Row)
    requires WellFormed(name, t) && WellFormed(other, t') && ix in t'.indexes && GoodRow(t', row) && other != name
    ensures Foreign(EntryKey(other, t', ix, row), name, t)
  {
    hide IndexKey, RowKey, CanonicalRow;
    var values, pk := IndexValues(ix.columns, t'.columns, row), PkOf(t', row);
    IndexKeyMeetsNoRow(name, other, ix.name, values, pk);
    forall own | own in t.indexes ensures !HasPrefix(EntryKey(other, t', ix, row), IndexKey(name, own.name, [], [])) {
      IndexKeyMeets(name, own.name, [], other, ix.name, values, pk);
    }
  }

  /* ---------- Every run of CREATE TABLE and INSERT ---------- */

  /** store: what is committed; tables and data: what the statements so far mean. */
  datatype World = World(store: Store, tables: map<Bytes, Table>, data: map<Bytes, Data>)

  /** order: the table names in the order in which CREATE meets them in its map, its own included. */
  datatype Statement = Create(name: Bytes, table: Table, order: seq<Bytes>) | InsertInto(name: Bytes, row: Row)

  const COMMA: Byte := 44

  const EmptyWorld: World := World(map[], map[], map[])

  ghost predicate Executable(w: World, s: Statement) {
    match s
    case Create(name, t, order) =>
      && name !in w.tables && WellFormed(name, t)
      && (forall n :: n in order <==> n == name || n in w.tables)
      && (forall i, j :: 0 <= i < j < |order| ==> order[i] != order[j])
    case InsertInto(name, row) =>
      && name in w.tables && name in w.data
      && GoodRow(w.tables[name], row) && PkOf(w.tables[name], row) !in w.data[name]
  }

  /** createTable: three separate puts. */
  function CreatePuts(name: Bytes, t: Table, names: Bytes): Puts {
    var schema := EncodeSchema(Schema(t.pkPosition, t.columns));
    var indexes := EncodeIndexes(t.indexes, t.columns);
    [(CATALOG, names), (RowKey(SCHEMA, name), schema)]
    + if indexes.None? then [] else [(RowKey(INDEX_CATALOG, name), indexes.value)]
  }

  ghost function Execute(w: World, s: Statement): World
    requires Executable(w, s)
  {
    match s
    case Create(name, t, order) =>
      assert name in order;
      World(Apply(w.store, CreatePuts(name, t, Join(COMMA, order))), w.tables[name := t], w.data[name := map[]])
    case InsertInto(name, row) =>
      var t := w.tables[name];
      var insert := InsertWrites(name, t, row);
      World(if insert.Writes? then Apply(w.store, insert.puts) else w.store,
            w.tables, w.data[name := w.data[name][PkOf(t, row) := row]])
  }

  /** Every table holds exactly the rows inserted into it; a name not created yet has left no trace. */
  ghost predicate Described(w: World, name: Bytes) {
    if name in w.tables then
      name in w.data && WellFormed(name, w.tables[name]) && TableIn(w.store, name, w.tables[name], w.data[name])
    else
      forall t :: WellFormed(name, t) ==> TableIn(w.store, name, t, map[])
  }

  ghost predicate WorldOk(w: World) {
    forall name :: Described(w, name)
  }

  /** The keys under which CREATE TABLE stores its catalogue. */
  ghost predicate IsCatalogueKey(k: Bytes) {
    k == CATALOG || exists name :: Plain(name) && (k == RowKey(SCHEMA, name) || k == RowKey(INDEX_CATALOG, name))
  }

  lemma CatalogueIsForeign(name: Bytes, t: Table, k: Bytes)
    requires WellFormed(name, t) && IsCatalogueKey(k)
    ensures Foreign(k, name, t)
  {
    hide RowKey;
    if k == CATALOG {
      RowKeyIs(name, []);
      PrefixFindsExactly([name], [CATALOG]);
      forall ix | ix in t.indexes ensures !HasPrefix(CATALOG, IndexKey(name, ix.name, [], [])) {
        IndexKeyIs(name, ix.name, [], []);
        assert [INDEX, name, ix.name] + [] == [INDEX, name, ix.name];
        PrefixFindsExactly([INDEX, name, ix.name], [CATALOG]);
      }
    } else {
      var other :| Plain(other) && (k == RowKey(SCHEMA, other) || k == RowKey(INDEX_CATALOG, other));
      RowIsForeign(name, t, SCHEMA, other);
      RowIsForeign(name, t, INDEX_CATALOG, other);
    }
  }

  lemma CreateIsForeign(name: Bytes, t: Table, other: Bytes, t': Table, names: Bytes)
    requires WellFormed(name, t) && WellFormed(other, t')
    ensures forall p <- CreatePuts(other, t', names) :: Foreign(p.0, name, t)
  {
    hide RowKey, EncodeSchema, EncodeIndexes, Foreign;
    forall p | p in CreatePuts(other, t', names) ensures Foreign(p.0, name, t) {
      assert IsCatalogueKey(p.0);
      CatalogueIsForeign(name, t, p.0);
    }
  }

  lemma StatementKeeps(w: World, s: Statement, name: Bytes)
    requires WorldOk(w) && Executable(w, s)
    ensures Described(Execute(w, s), name)
  {
    hide TableIn, WellFormed, GoodRow, InsertWrites, CreatePuts;
    var w' := Execute(w, s);
    assert Described(w, name) && Described(w, s.name);
    match s
    case Create(other, t', order) =>
      assert other in order;
      var names := Join(COMMA, order);
      forall t, data | WellFormed(name, t) && TableIn(w.store, name, t, data) ensures TableIn(w'.store, name, t, data) {
        CreateIsForeign(name, t, other, t', names);
        ApplyForeign(w.store, CreatePuts(other, t', names), name, t, data);
      }
    case InsertInto(other, row) =>
      var t' := w.tables[other];
      if name == other {
        InsertAddsRow(w.store, name, t', w.data[name], row);
      } else {
        forall t, data | WellFormed(name, t) && TableIn(w.store, name, t, data) ensures TableIn(w'.store, name, t, data) {
          InsertLeavesOthers(w.store, name, t, data, other, t', row);
        }
      }
  }

  ghost predicate ExecutableAll(w: World, run: seq<Statement>)
    decreases |run|
  {
    run == [] || (Executable(w, run[0]) && ExecutableAll(Execute(w, run[0]), run[1..]))
  }

  ghost function ExecuteAll(w: World, run: seq<Statement>): World
    requires ExecutableAll(w, run)
    decreases |run|
  {
    if run == [] then w else ExecuteAll(Execute(w, run[0]), run[1..])
  }

  /** After any run of statements, the key space holds of every table exactly the inserted rows
      and exactly their index entries. */
  lemma {:induction false} StatementsKeep(w: World, run: seq<Statement>)
    requires WorldOk(w) && ExecutableAll(w, run)
    ensures WorldOk(ExecuteAll(w, run))
    decreases |run|
  {
    hide Described, Executable;
    if run == [] {
    } else {
      forall name ensures Described(Execute(w, run[0]), name) { StatementKeeps(w, run[0], name); }
      StatementsKeep(Execute(w, run[0]), run[1..]);
    }
  }

  lemma EmptyWorldOk()
    ensures WorldOk(EmptyWorld)
  {
  }

  /** In particular from the empty database on. */
  lemma EveryRunIsDescribed(run: seq<Statement>, name: Bytes)
    requires ExecutableAll(EmptyWorld, run) && name in ExecuteAll(EmptyWorld, run).tables
    ensures var w := ExecuteAll(EmptyWorld, run);
            name in w.data && WellFormed(name, w.tables[name]) && TableIn(w.store, name, w.tables[name], w.data[name])
  {
    EmptyWorldOk();
    StatementsKeep(EmptyWorld, run);
    assert Described(ExecuteAll(EmptyWorld, run), name);
  }
}
