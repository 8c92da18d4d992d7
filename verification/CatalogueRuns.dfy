/** The table catalogue along runs of CREATE TABLE and INSERT (db/create.go createTable), and what a
    restart loads from it (db/db.go getTableNameVsSchemaMap). */
module CatalogueRuns {
  import opened Bytes
  import opened Rows
  import opened Catalog
  import opened TableKeys
  import opened Tables

  /* ---------- What the store says about the tables ---------- */

  /** The sizes that the four-byte fields of the catalogue can hold. */
  ghost predicate SizesFit(t: Table) {
    && t.pkPosition < TWO_32 && NamesFit(t.columns)
    && |t.columns| <= TWO_32 && |t.indexes| < TWO_32 && forall ix <- t.indexes :: Fits(ix)
  }

  /** The catalogue entries of one table read back as that table. */
  ghost predicate Catalogued(m: Store, name: Bytes, t: Table) {
    var schema, indexes := RowKey(SCHEMA, name), RowKey(INDEX_CATALOG, name);
    && schema in m && indexes in m
    && (DecodeSchema(m[schema]) == Some(Schema(t.pkPosition, t.columns)) <==> 0 <= t.pkPosition < TWO_32 && NamesFit(t.columns))
    && (SizesFit(t) ==> DecodeIndexes(m[indexes], t.columns) == Some(Listed(t.indexes, |m[indexes]|)))
  }

  /** The list of names holds every created table once, with commas between them. */
  ghost predicate NamesListed(m: Store, tables: map<Bytes, Table>) {
    if tables == map[] then CATALOG !in m
    else
      CATALOG in m && exists order :: ListsAll(order, tables) && m[CATALOG] == Join(44, order)
  }

  ghost predicate ListsAll(order: seq<Bytes>, tables: map<Bytes, Table>) {
    order != [] && (forall n :: n in order <==> n in tables) && forall i, j :: 0 <= i < j < |order| ==> order[i] != order[j]
  }

  ghost predicate AllCatalogued(w: World) {
    && NamesListed(w.store, w.tables)
    && forall name :: name in w.tables ==> WellFormed(name, w.tables[name]) && Catalogued(w.store, name, w.tables[name])
  }

  /* ---------- The catalogue keys are written by CREATE alone ---------- */

  lemma CatalogueKeysDiffer(a: Bytes, b: Bytes)
    requires Plain(a) && Plain(b)
    ensures RowKey(SCHEMA, a) != RowKey(INDEX_CATALOG, b) && RowKey(SCHEMA, a) != CATALOG && RowKey(INDEX_CATALOG, a) != CATALOG
    ensures a != b ==> RowKey(SCHEMA, a) != RowKey(SCHEMA, b) && RowKey(INDEX_CATALOG, a) != RowKey(INDEX_CATALOG, b)
  {
    RowKeyIs(SCHEMA, a);
    RowKeyIs(SCHEMA, b);
    RowKeyIs(INDEX_CATALOG, a);
    RowKeyIs(INDEX_CATALOG, b);
    assert Join(COLON, [CATALOG]) == CATALOG;
    JoinInjective([SCHEMA, a], [INDEX_CATALOG, b]);
    JoinInjective([SCHEMA, a], [CATALOG]);
    JoinInjective([INDEX_CATALOG, a], [CATALOG]);
    JoinInjective([SCHEMA, a], [SCHEMA, b]);
    JoinInjective([INDEX_CATALOG, a], [INDEX_CATALOG, b]);
    assert SCHEMA[1] != INDEX_CATALOG[2] && |SCHEMA| != |INDEX_CATALOG|;
    assert [SCHEMA, a][0] == SCHEMA && [INDEX_CATALOG, b][0] == INDEX_CATALOG;
    assert [SCHEMA, a][1] == a && [SCHEMA, b][1] == b && [INDEX_CATALOG, a][1] == a && [INDEX_CATALOG, b][1] == b;
  }

  /** What CREATE leaves: the list of names, and the catalogue entries of its table. */
  lemma CreateCatalogues(m: Store, name: Bytes, t: Table, names: Bytes)
    requires WellFormed(name, t)
    ensures var m' := Apply(m, CreatePuts(name, t, names)); Catalogued(m', name, t) && CATALOG in m' && m'[CATALOG] == names
  {
    hide RowKey, EncodeSchema, EncodeIndexes, DecodeSchema, DecodeIndexes;
    var schema, indexes := EncodeSchema(Schema(t.pkPosition, t.columns)), EncodeIndexes(t.indexes, t.columns);
    CatalogueKeysDiffer(name, name);
    EncodeIndexesExactly(t);
    var m1 := m[CATALOG := names];
    var m2 := m1[RowKey(SCHEMA, name) := schema];
    assert CreatePuts(name, t, names)[1..] == [(RowKey(SCHEMA, name), schema), (RowKey(INDEX_CATALOG, name), indexes.value)];
    assert CreatePuts(name, t, names)[1..][1..] == [(RowKey(INDEX_CATALOG, name), indexes.value)];
    assert Apply(m2, [(RowKey(INDEX_CATALOG, name), indexes.value)]) == m2[RowKey(INDEX_CATALOG, name) := indexes.value];
    SchemaSurvivesExactly(Schema(t.pkPosition, t.columns));
    if SizesFit(t) {
      CatalogueRoundTrip(t.indexes, t.columns, []);
      assert indexes.value + [] == indexes.value;
    }
  }

  lemma EncodeIndexesExactly(t: Table)
    requires forall i :: 0 <= i < |t.indexes| ==> Known(t.indexes[i].columns, t.columns)
    ensures EncodeIndexes(t.indexes, t.columns).Some?
  {
    UnknownColumnsAreRefusedExactly(t.indexes, t.columns);
  }

  /** Writes to other keys leave a catalogue key alone. */
  lemma OtherKeysStay(m: Store, puts: Puts, k: Bytes)
    requires forall p <- puts :: p.0 != k
    ensures k in Apply(m, puts) <==> k in m
    ensures k in m ==> Apply(m, puts)[k] == m[k]
  {
    ApplyKeys(m, puts);
  }

  /** A later CREATE of another table keeps the entries of this one. */
  lemma CreateKeepsOthers(m: Store, name: Bytes, t: Table, other: Bytes, t': Table, names: Bytes)
    requires WellFormed(name, t) && WellFormed(other, t') && other != name && Catalogued(m, name, t)
    ensures Catalogued(Apply(m, CreatePuts(other, t', names)), name, t)
  {
    hide RowKey, EncodeSchema, EncodeIndexes, DecodeSchema, DecodeIndexes, SizesFit;
    CatalogueKeysDiffer(name, other);
    CatalogueKeysDiffer(other, name);
    OtherKeysStay(m, CreatePuts(other, t', names), RowKey(SCHEMA, name));
    OtherKeysStay(m, CreatePuts(other, t', names), RowKey(INDEX_CATALOG, name));
  }

  /** An insert writes no catalogue key. */
  lemma InsertSparesCatalogue(m: Store, other: Bytes, t: Table, row: Row, k: Bytes)
    requires WellFormed(other, t) && GoodRow(t, row) && IsCatalogueKey(k) && InsertWrites(other, t, row).Writes?
    ensures var m' := Apply(m, InsertWrites(other, t, row).puts); (k in m' <==> k in m) && (k in m ==> m'[k] == m[k])
  {
    hide RowKey, EntryKey, IndexKey, InsertWrites, IsCatalogueKey, GoodRow;
    var puts := InsertWrites(other, t, row).puts;
    CatalogueIsForeign(other, t, k);
    InsertIsWrites(other, t, row);
    forall p | p in puts ensures p.0 != k {
      var i :| 0 <= i < |puts| && puts[i] == p;
      if i == 0 {
        RowKeyInjective(other, PkOf(t, row), []);
      } else {
        EntryMeetsOwnScan(other, t, t.indexes[i - 1], row);
      }
    }
    OtherKeysStay(m, puts, k);
  }

  lemma CreateStep(w: World, s: Statement)
    requires AllCatalogued(w) && Executable(w, s) && s.Create?
    ensures AllCatalogued(Execute(w, s))
  {
    hide WellFormed, Catalogued, CreatePuts, Join;
    assert s.name in s.order;
    var names := Join(COMMA, s.order);
    CreateCatalogues(w.store, s.name, s.table, names);
    forall name | name in w.tables ensures Catalogued(Execute(w, s).store, name, w.tables[name]) {
      CreateKeepsOthers(w.store, name, w.tables[name], s.name, s.table, names);
    }
    assert ListsAll(s.order, Execute(w, s).tables);
  }

  lemma InsertStep(w: World, s: Statement)
    requires AllCatalogued(w) && Executable(w, s) && s.InsertInto?
    ensures AllCatalogued(Execute(w, s))
  {
    hide GoodRow, InsertWrites, Join, RowKey, DecodeSchema, DecodeIndexes, SizesFit, WellFormed;
    var t, m, m' := w.tables[s.name], w.store, Execute(w, s).store;
    forall k | IsCatalogueKey(k) ensures (k in m' <==> k in m) && (k in m ==> m'[k] == m[k]) {
      if InsertWrites(s.name, t, s.row).Writes? { InsertSparesCatalogue(m, s.name, t, s.row, k); }
    }
    forall name | name in w.tables
      ensures IsCatalogueKey(RowKey(SCHEMA, name)) && IsCatalogueKey(RowKey(INDEX_CATALOG, name)) && Catalogued(m', name, w.tables[name])
    {
      PlainName(name, w.tables[name]);
    }
  }

  lemma PlainName(name: Bytes, t: Table)
    requires WellFormed(name, t)
    ensures Plain(name)
  {
  }

  /** After any run of statements the catalogue entries of every created table read back as that table,
      and the name list is the one of the last CREATE, with every table in it. */
  lemma {:induction false} RunsKeepCatalogue(w: World, run: seq<Statement>)
    requires AllCatalogued(w) && ExecutableAll(w, run)
    ensures AllCatalogued(ExecuteAll(w, run))
    decreases |run|
  {
    hide AllCatalogued, Executable;
    if run != [] {
      if run[0].Create? { CreateStep(w, run[0]); } else { InsertStep(w, run[0]); }
      RunsKeepCatalogue(Execute(w, run[0]), run[1..]);
    }
  }

  lemma EmptyIsCatalogued()
    ensures AllCatalogued(EmptyWorld)
  {
  }

  /** The name list is that of the last CREATE of the run. */
  lemma {:induction false} LastCreateNames(w: World, run: seq<Statement>, n: nat)
    requires AllCatalogued(w) && ExecutableAll(w, run) && n < |run| && run[n].Create?
    requires forall i :: n < i < |run| ==> run[i].InsertInto?
    ensures run[n].order != [] && CATALOG in ExecuteAll(w, run).store
    ensures ExecuteAll(w, run).store[CATALOG] == Join(44, run[n].order)
    decreases |run|
  {
    hide Join, Apply, WellFormed, GoodRow, InsertWrites, CreatePuts;
    var w', rest := Execute(w, run[0]), run[1..];
    if n > 0 {
      if run[0].Create? { CreateStep(w, run[0]); } else { InsertStep(w, run[0]); }
      assert rest[n - 1] == run[n];
      LastCreateNames(w', rest, n - 1);
    } else {
      assert run[0].name in run[0].order;
      CreateStep(w, run[0]);
      CreateCatalogues(w.store, run[0].name, run[0].table, Join(COMMA, run[0].order));
      InsertsKeepNames(w', rest);
    }
  }

  lemma {:induction false} InsertsKeepNames(w: World, run: seq<Statement>)
    requires AllCatalogued(w) && ExecutableAll(w, run) && CATALOG in w.store && forall i :: 0 <= i < |run| ==> run[i].InsertInto?
    ensures CATALOG in ExecuteAll(w, run).store && ExecuteAll(w, run).store[CATALOG] == w.store[CATALOG]
    decreases |run|
  {
    hide Apply, WellFormed, GoodRow, InsertWrites, AllCatalogued;
    if run != [] {
      InsertStep(w, run[0]);
      var t := w.tables[run[0].name];
      if InsertWrites(run[0].name, t, run[0].row).Writes? { TablesWellFormed(w, run[0].name); InsertSparesCatalogue(w.store, run[0].name, t, run[0].row, CATALOG); }
      InsertsKeepNames(Execute(w, run[0]), run[1..]);
    }
  }

  lemma TablesWellFormed(w: World, name: Bytes)
    requires AllCatalogued(w) && name in w.tables
    ensures WellFormed(name, w.tables[name])
  {
  }

  /* ---------- What a restart loads ---------- */

  /** Get on a missing key gives the empty text. */
  function Lookup(m: Store, k: Bytes): Bytes {
    if k in m then m[k] else []
  }

  function LoadTable(m: Store, name: Bytes): Option<Table> {
    var schema := DecodeSchema(Lookup(m, RowKey(SCHEMA, name)));
    if schema.None? then None
    else
      var indexes := DecodeIndexes(Lookup(m, RowKey(INDEX_CATALOG, name)), schema.value.columns);
      if indexes.None? then None
      else Some(Table(schema.value.columns, schema.value.pkPosition, indexes.value.indexes))
  }

  /** The loop of getTableNameVsSchemaMap: one table after another, up to the first that cannot be read. */
  function LoadEach(m: Store, names: seq<Bytes>): Option<map<Bytes, Table>> {
    if names == [] then Some(map[])
    else
      var n := |names| - 1;
      var before := LoadEach(m, names[..n]);
      if before.None? then None
      else
        var t := LoadTable(m, names[n]);
        if t.None? then None else Some(before.value[names[n] := t.value])
  }

  function LoadTables(m: Store): Option<map<Bytes, Table>> {
    if Lookup(m, CATALOG) == [] then Some(map[]) else LoadEach(m, Split(COMMA, Lookup(m, CATALOG)))
  }

  lemma {:induction false} LoadFails(m: Store, names: seq<Bytes>, n: nat)
    requires n <= |names| && LoadEach(m, names[..n]).None?
    ensures LoadEach(m, names).None?
    decreases |names|
  {
    if n < |names| {
      assert names[..|names| - 1][..n] == names[..n];
      LoadFails(m, names[..|names| - 1], n);
    } else {
      assert names[..n] == names;
    }
  }

  /** getTableNameVsSchemaMap, over the snapshot its transaction reads. */
  method LoadCatalogue(m: Store) returns (r: Option<map<Bytes, Table>>)
    ensures r == LoadTables(m)
  {
    hide DecodeSchema, DecodeIndexes, RowKey, Split;
    var text := Lookup(m, CATALOG);
    if text == [] { return Some(map[]); }
    var names := Split(COMMA, text);
    var tables: map<Bytes, Table> := map[];
    for i := 0 to |names|
      invariant LoadEach(m, names[..i]) == Some(tables)
    {
      var name := names[i];
      assert names[..i + 1][..i] == names[..i];
      var schema := DeserialiseSchema(Lookup(m, RowKey(SCHEMA, name)));
      if schema.None? { LoadFails(m, names, i + 1); return None; }
      var indexes := DeserialiseIndexes(Lookup(m, RowKey(INDEX_CATALOG, name)), schema.value.columns);
      if indexes.None? { LoadFails(m, names, i + 1); return None; }
      tables := tables[name := Table(schema.value.columns, schema.value.pkPosition, indexes.value)];
    }
    assert names[..|names|] == names;
    return Some(tables);
  }

  lemma {:induction false} LoadsEach(m: Store, names: seq<Bytes>, tables: map<Bytes, Table>)
    requires forall n <- names :: n in tables && Catalogued(m, n, tables[n]) && SizesFit(tables[n]) && 0 <= tables[n].pkPosition
    ensures var r := LoadEach(m, names);
            && r.Some? && (forall n :: n in r.value <==> n in names)
            && forall n <- names :: r.value[n] == tables[n]
  {
    hide DecodeSchema, DecodeIndexes, RowKey, Fits;
    if names != [] {
      var k := |names| - 1;
      assert names == names[..k] + [names[k]];
      LoadsEach(m, names[..k], tables);
      assert names[k] in names;
      assert LoadTable(m, names[k]) == Some(tables[names[k]]);
    }
  }

  /** A restart after any run of statements loads exactly the created tables, if sizes fit and names, as
      the parser's are, are not empty and have no comma. */
  lemma RestartLoadsTables(run: seq<Statement>)
    requires ExecutableAll(EmptyWorld, run)
    requires var w := ExecuteAll(EmptyWorld, run);
             forall name <- w.tables.Keys :: SizesFit(w.tables[name]) && name != [] && COMMA !in name
    ensures var w := ExecuteAll(EmptyWorld, run); LoadTables(w.store) == Some(w.tables)
  {
    hide Catalogued, WellFormed, SizesFit, Split, Join, LoadEach;
    var w := ExecuteAll(EmptyWorld, run);
    EmptyIsCatalogued();
    RunsKeepCatalogue(EmptyWorld, run);
    if w.tables != map[] {
      var order :| ListsAll(order, w.tables) && w.store[CATALOG] == Join(COMMA, order);
      forall i | 0 <= i < |order| ensures COMMA !in order[i] { assert order[i] in order; }
      SplitJoin(COMMA, order);
      JoinNotEmpty(order);
      forall name | name in order ensures 0 <= w.tables[name].pkPosition { PkInRange(name, w.tables[name]); }
      LoadsEach(w.store, order, w.tables);
      assert LoadEach(w.store, order).value == w.tables;
    }
  }

  lemma PkInRange(name: Bytes, t: Table)
    requires WellFormed(name, t)
    ensures 0 <= t.pkPosition
  {
  }

  lemma JoinNotEmpty(order: seq<Bytes>)
    requires order != [] && forall n <- order :: n != []
    ensures Join(COMMA, order) != []
  {
    assert order[0] in order;
  }

  /** The loop of createTable: each name with a comma behind it, and the last comma cut off. */
  method NameList(order: seq<Bytes>) returns (names: Bytes)
    requires order != []
    ensures names == Join(44, order)
  {
    names := [];
    for i := 0 to |order|
      invariant i == 0 ==> names == []
      invariant i > 0 ==> names == Join(COMMA, order[..i]) + [COMMA]
    {
      assert order[..i + 1] == order[..i] + [order[i]];
      if i > 0 { JoinOneMore(order[..i], order[i]); }
      names := names + order[i] + [COMMA];
    }
    assert order[..|order|] == order;
    names := names[..|names| - 1];
  }

  lemma {:induction false} JoinOneMore(parts: seq<Bytes>, last: Bytes)
    requires parts != []
    ensures Join(COMMA, parts + [last]) == Join(COMMA, parts) + [COMMA] + last
  {
    if |parts| > 1 {
      assert (parts + [last])[1..] == parts[1..] + [last];
      JoinOneMore(parts[1..], last);
    } else {
      assert (parts + [last])[1..] == [last];
    }
  }
}
