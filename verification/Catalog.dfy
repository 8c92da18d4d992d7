/** The catalogue entries of a table (db/create.go): its schema, and its secondary indexes with
    column names stored as positions. */
module Catalog {
  import opened Bytes
  import opened Rows

  datatype Column = Column(kind: Byte, name: Bytes)

  datatype Schema = Schema(pkPosition: int, columns: seq<Column>)

  datatype Index = Index(name: Bytes, columns: seq<Bytes>)

  /* ---------- Reading a string behind its length ---------- */

  function ReadStr(buf: Bytes, i: nat): (r: Option<Read>)
    ensures r.Some? ==> i + 4 <= r.value.next <= |buf|
  {
    var s := ExtractString(buf, i);
    if s.None? then None else Some(Read(s.value, i + 4 + |s.value|))
  }

  lemma ReadOfStr(s: Bytes, buf: Bytes, i: nat, post: Bytes)
    requires i <= |buf| && buf[i..] == Str(s) + post
    ensures i + 4 + |s| <= |buf| && buf[i + 4 + |s|..] == post
    ensures |s| < TWO_32 ==> ReadStr(buf, i) == Some(Read(s, i + 4 + |s|))
    ensures |s| >= TWO_32 ==> ReadStr(buf, i).None? || ReadStr(buf, i).value.value != s
  {
    hide U32, FromU32;
    var tail := buf[i..];
    assert tail[..|Str(s)|] == Str(s) && tail[|Str(s)|..] == post;
    assert buf[i..i + |Str(s)|] == tail[..|Str(s)|];
    assert buf[i + |Str(s)|..] == tail[|Str(s)|..];
    assert Str(s) == U32(|s|) + s + [];
    ThreeParts(buf, i, U32(|s|), s, []);
    if |s| < TWO_32 { U32RoundTrip(|s|); }
  }

  lemma StrOfRead(buf: Bytes, i: nat)
    requires i <= |buf| && ReadStr(buf, i).Some?
    ensures buf[i..] == Str(ReadStr(buf, i).value.value) + buf[ReadStr(buf, i).value.next..]
  {
    hide U32, FromU32;
    U32Onto(buf[i..i + 4]);
    var n := FromU32(buf[i..i + 4]);
    assert buf[i..] == buf[i..i + 4] + buf[i + 4..i + 4 + n] + buf[i + 4 + n..];
  }

  lemma ReadOfU32(n: nat, buf: Bytes, i: nat, post: Bytes)
    requires i <= |buf| && buf[i..] == U32(n) + post
    ensures i + 4 <= |buf| && buf[i + 4..] == post
    ensures n < TWO_32 ==> FromU32(buf[i..i + 4]) == n
  {
  }

  lemma U32OfRead(buf: Bytes, i: nat)
    requires i + 4 <= |buf|
    ensures buf[i..] == U32(FromU32(buf[i..i + 4])) + buf[i + 4..]
  {
    hide U32, FromU32;
    U32Onto(buf[i..i + 4]);
    assert buf[i..] == buf[i..i + 4] + buf[i + 4..];
  }

  /* ---------- The schema ---------- */

  function EncodeColumns(cols: seq<Column>): Bytes {
    if cols == [] then [] else [cols[0].kind] + Str(cols[0].name) + EncodeColumns(cols[1..])
  }

  function EncodeSchema(s: Schema): Bytes {
    U32(Low32(s.pkPosition)) + EncodeColumns(s.columns)
  }

  function DecodeColumns(buf: Bytes, i: nat): Option<seq<Column>>
    requires i <= |buf|
    decreases |buf| - i
  {
    if i == |buf| then Some([])
    else
      var name := ReadStr(buf, i + 1);
      if name.None? then None
      else
        var rest := DecodeColumns(buf, name.value.next);
        if rest.None? then None else Some([Column(buf[i], name.value.value)] + rest.value)
  }

  function DecodeSchema(buf: Bytes): Option<Schema> {
    if |buf| < 4 then None
    else
      var cols := DecodeColumns(buf, 4);
      if cols.None? then None else Some(Schema(FromU32(buf[..4]), cols.value))
  }

  /** Every name length fits its four bytes. */
  ghost predicate NamesFit(cols: seq<Column>) {
    forall i :: 0 <= i < |cols| ==> |cols[i].name| < TWO_32
  }

  /** One column: what is left behind it, and whether its name comes back. */
  lemma ColumnSurvives(c: Column, buf: Bytes, i: nat, post: Bytes)
    requires i <= |buf| && buf[i..] == [c.kind] + Str(c.name) + post
    ensures i < |buf| && buf[i] == c.kind
    ensures i + 5 + |c.name| <= |buf| && buf[i + 5 + |c.name|..] == post
    ensures |c.name| < TWO_32 ==> ReadStr(buf, i + 1) == Some(Read(c.name, i + 5 + |c.name|))
    ensures |c.name| >= TWO_32 ==> ReadStr(buf, i + 1).None? || ReadStr(buf, i + 1).value.value != c.name
  {
    hide ReadStr, Str;
    var tail := buf[i..];
    assert tail == [c.kind] + (Str(c.name) + post);
    assert buf[i] == tail[0] == c.kind;
    assert buf[i + 1..] == tail[1..] == Str(c.name) + post;
    ReadOfStr(c.name, buf, i + 1, post);
  }

  lemma {:induction false} ColumnsSurvive(cols: seq<Column>, buf: Bytes, i: nat)
    requires i <= |buf| && buf[i..] == EncodeColumns(cols)
    ensures DecodeColumns(buf, i) == Some(cols) <==> NamesFit(cols)
  {
    hide ReadStr, Str;
    if cols == [] {
    } else {
      ColumnSurvives(cols[0], buf, i, EncodeColumns(cols[1..]));
      assert cols == [cols[0]] + cols[1..];
      var tail := cols[1..];
      assert NamesFit(cols) <==> |cols[0].name| < TWO_32 && NamesFit(tail) by {
        if |cols[0].name| < TWO_32 && NamesFit(tail) {
          assert forall k :: 1 <= k < |cols| ==> cols[k] == tail[k - 1];
        }
        if NamesFit(cols) {
          assert forall k :: 0 <= k < |tail| ==> tail[k] == cols[k + 1];
        }
      }
      if |cols[0].name| < TWO_32 {
        var next := i + 5 + |cols[0].name|;
        ColumnsSurvive(tail, buf, next);
        if DecodeColumns(buf, next).Some? { ConsColumns(cols, DecodeColumns(buf, next).value); }
      }
    }
  }

  lemma ConsColumns(cols: seq<Column>, rest: seq<Column>)
    requires cols != []
    ensures [cols[0]] + rest == cols <==> rest == cols[1..]
  {
  }

  /** A schema is read back as written exactly if its position and its name lengths fit four bytes. */
  lemma SchemaSurvivesExactly(s: Schema)
    ensures DecodeSchema(EncodeSchema(s)) == Some(s) <==> 0 <= s.pkPosition < TWO_32 && NamesFit(s.columns)
  {
    hide U32, FromU32, DecodeColumns, EncodeColumns;
    var buf := EncodeSchema(s);
    assert buf[0..] == buf && buf[..4] == buf[0..4];
    ReadOfU32(Low32(s.pkPosition), buf, 0, EncodeColumns(s.columns));
    ColumnsSurvive(s.columns, buf, 4);
  }

  lemma {:induction false} DecodedColumnsEncode(buf: Bytes, i: nat)
    requires i <= |buf| && DecodeColumns(buf, i).Some?
    ensures EncodeColumns(DecodeColumns(buf, i).value) == buf[i..]
    decreases |buf| - i
  {
    hide ReadStr, Str;
    if i < |buf| {
      var name := ReadStr(buf, i + 1).value;
      StrOfRead(buf, i + 1);
      DecodedColumnsEncode(buf, name.next);
      var cols := DecodeColumns(buf, i).value;
      assert cols[0] == Column(buf[i], name.value) && cols[1..] == DecodeColumns(buf, name.next).value;
      assert buf[i..] == [buf[i]] + buf[i + 1..];
      assert [buf[i]] + (Str(name.value) + buf[name.next..]) == [buf[i]] + Str(name.value) + buf[name.next..];
    }
  }

  /** Every accepted byte string is the encoding of what it decodes to: the schema codec is one to one both ways. */
  lemma DecodedSchemaEncodes(buf: Bytes)
    requires DecodeSchema(buf).Some?
    ensures EncodeSchema(DecodeSchema(buf).value) == buf
  {
    hide U32, FromU32, DecodeColumns, EncodeColumns;
    DecodedColumnsEncode(buf, 4);
    U32OfRead(buf, 0);
    assert buf[0..] == buf && buf[0..4] == buf[..4];
  }

  /** Where the n-th column lies in a stored schema. */
  function ColumnOffset(cols: seq<Column>, n: nat): nat
    requires n <= |cols|
  {
    if n == 0 then 4 else ColumnOffset(cols, n - 1) + 5 + |cols[n - 1].name|
  }

  lemma {:induction false} ColumnsJoin(a: seq<Column>, b: seq<Column>)
    ensures EncodeColumns(a + b) == EncodeColumns(a) + EncodeColumns(b)
    decreases |a|
  {
    hide Str;
    if a == [] {
      assert a + b == b;
    } else {
      assert (a + b)[1..] == a[1..] + b;
      ColumnsJoin(a[1..], b);
      assert [a[0].kind] + Str(a[0].name) + (EncodeColumns(a[1..]) + EncodeColumns(b)) == ([a[0].kind] + Str(a[0].name) + EncodeColumns(a[1..])) + EncodeColumns(b);
    }
  }

  lemma {:induction false} ColumnOffsetIs(cols: seq<Column>, n: nat)
    requires n <= |cols|
    ensures ColumnOffset(cols, n) == 4 + |EncodeColumns(cols[..n])|
  {
    hide Str;
    if n > 0 {
      ColumnOffsetIs(cols, n - 1);
      assert cols[..n] == cols[..n - 1] + [cols[n - 1]];
      ColumnsJoin(cols[..n - 1], [cols[n - 1]]);
    }
  }

  /** A stored schema is the key position in four bytes and then column after column: one byte of kind,
      four of name length, the name. */
  lemma SchemaLayout(s: Schema, n: nat)
    requires n < |s.columns|
    ensures var b, c, at := EncodeSchema(s), s.columns[n], ColumnOffset(s.columns, n);
            && b[..4] == U32(Low32(s.pkPosition)) && |b| == ColumnOffset(s.columns, |s.columns|) >= at + 5 + |c.name|
            && b[at] == c.kind && b[at + 1..at + 5] == U32(|c.name|) && b[at + 5..at + 5 + |c.name|] == c.name
  {
    hide U32, EncodeColumns, ColumnOffset;
    var b, c, cols := EncodeSchema(s), s.columns[n], s.columns;
    assert cols == (cols[..n] + [c]) + cols[n + 1..] && cols[..|cols|] == cols;
    ColumnsJoin(cols[..n] + [c], cols[n + 1..]);
    ColumnsJoin(cols[..n], [c]);
    ColumnOffsetIs(cols, n);
    ColumnOffsetIs(cols, |cols|);
    OneColumnIs(c);
    var before := U32(Low32(s.pkPosition)) + EncodeColumns(cols[..n]);
    var one := [c.kind] + U32(|c.name|) + c.name;
    assert b == before + one + EncodeColumns(cols[n + 1..]);
    assert b[|before|..|before| + |one|] == one;
    ThreeParts(b, |before|, [c.kind], U32(|c.name|), c.name);
    assert b[|before|] == b[|before|..|before| + 1][0];
  }

  lemma OneColumnIs(c: Column)
    ensures EncodeColumns([c]) == [c.kind] + U32(|c.name|) + c.name
  {
    hide U32;
    assert [c][1..] == [];
  }

  method SerialiseSchema(s: Schema) returns (buf: Bytes)
    ensures buf == EncodeSchema(s)
  {
    hide U32, Str;
    buf := U32(Low32(s.pkPosition));
    assert s.columns[0..] == s.columns;
    for i := 0 to |s.columns|
      invariant buf + EncodeColumns(s.columns[i..]) == EncodeSchema(s)
    {
      var c := s.columns[i];
      assert s.columns[i..][1..] == s.columns[i + 1..];
      ghost var rest := EncodeColumns(s.columns[i + 1..]);
      assert buf + ([c.kind] + Str(c.name) + rest) == (buf + [c.kind] + Str(c.name)) + rest;
      buf := buf + [c.kind] + Str(c.name);
    }
    assert buf + [] == buf;
  }

  method DeserialiseSchema(buf: Bytes) returns (r: Option<Schema>)
    ensures r == DecodeSchema(buf)
  {
    hide ReadStr, FromU32;
    if |buf| < 4 { return None; }
    var pk: int := FromU32(buf[..4]);
    var i := 4;
    var cols: seq<Column> := [];
    ghost var whole := DecodeColumns(buf, 4);
    assert whole.Some? ==> [] + whole.value == whole.value;
    while i < |buf|
      invariant 4 <= i <= |buf|
      invariant whole == match DecodeColumns(buf, i) case None => None case Some(rest) => Some(cols + rest)
    {
      var name := ReadStr(buf, i + 1);
      if name.None? { return None; }
      ghost var rest := DecodeColumns(buf, name.value.next);
      var c := Column(buf[i], name.value.value);
      assert rest.Some? ==> cols + ([c] + rest.value) == (cols + [c]) + rest.value;
      cols := cols + [c];
      i := name.value.next;
    }
    assert cols + [] == cols;
    return Some(Schema(pk, cols));
  }

  /* ---------- The secondary indexes ---------- */

  /** The last column of that name: the loop of the writer keeps overwriting its answer. */
  function LastPosition(cols: seq<Column>, name: Bytes): (p: Option<nat>)
    ensures p.None? <==> forall i :: 0 <= i < |cols| ==> cols[i].name != name
    ensures p.Some? ==> p.value < |cols| && cols[p.value].name == name
                        && forall i :: p.value < i < |cols| ==> cols[i].name != name
  {
    LastWhere(cols, (c: Column) => c.name == name)
  }

  function EncodePositions(names: seq<Bytes>, cols: seq<Column>): Option<Bytes> {
    if names == [] then Some([])
    else
      var p := LastPosition(cols, names[0]);
      var rest := EncodePositions(names[1..], cols);
      if p.None? || rest.None? then None else Some(U32(p.value) + rest.value)
  }

  function EncodeIndex(ix: Index, cols: seq<Column>): Option<Bytes> {
    var ps := EncodePositions(ix.columns, cols);
    if ps.None? then None else Some(Str(ix.name) + U32(|ix.columns|) + ps.value)
  }

  function EncodeEach(ixs: seq<Index>, cols: seq<Column>): Option<Bytes> {
    if ixs == [] then Some([])
    else
      var x := EncodeIndex(ixs[0], cols);
      var rest := EncodeEach(ixs[1..], cols);
      if x.None? || rest.None? then None else Some(x.value + rest.value)
  }

  function EncodeIndexes(ixs: seq<Index>, cols: seq<Column>): Option<Bytes> {
    var each := EncodeEach(ixs, cols);
    if each.None? then None else Some(U32(|ixs|) + each.value)
  }

  /** Where the n-th index lies in the catalogue. */
  function IndexOffset(ixs: seq<Index>, n: nat): nat
    requires n <= |ixs|
  {
    if n == 0 then 4 else IndexOffset(ixs, n - 1) + 8 + |ixs[n - 1].name| + 4 * |ixs[n - 1].columns|
  }

  lemma {:induction false} PositionsLayout(names: seq<Bytes>, cols: seq<Column>)
    requires EncodePositions(names, cols).Some?
    ensures var b := EncodePositions(names, cols).value;
            && |b| == 4 * |names|
            && forall k :: 0 <= k < |names| ==> LastPosition(cols, names[k]).Some? && b[4 * k..4 * k + 4] == U32(LastPosition(cols, names[k]).value)
  {
    hide U32, LastPosition;
    if names != [] {
      PositionsLayout(names[1..], cols);
      var b, rest := EncodePositions(names, cols).value, EncodePositions(names[1..], cols).value;
      forall k | 1 <= k < |names| ensures names[k] == names[1..][k - 1] && b[4 * k..4 * k + 4] == rest[4 * (k - 1)..4 * (k - 1) + 4] {}
    }
  }

  /** One index: four bytes of name length, the name, four of the number of columns, and four for the
      position of each, the last of its name. */
  lemma IndexLayout(ix: Index, cols: seq<Column>, k: nat)
    requires EncodeIndex(ix, cols).Some?
    ensures var b, n := EncodeIndex(ix, cols).value, |ix.name|;
            && |b| == 8 + n + 4 * |ix.columns|
            && b[..4] == U32(n) && b[4..4 + n] == ix.name && b[4 + n..8 + n] == U32(|ix.columns|)
            && (k < |ix.columns| ==>
                  LastPosition(cols, ix.columns[k]).Some? && b[8 + n + 4 * k..12 + n + 4 * k] == U32(LastPosition(cols, ix.columns[k]).value))
  {
    hide U32, LastPosition, EncodePositions;
    PositionsLayout(ix.columns, cols);
    var b, n, ps := EncodeIndex(ix, cols).value, |ix.name|, EncodePositions(ix.columns, cols).value;
    assert b == U32(n) + (ix.name + (U32(|ix.columns|) + ps));
    assert b[4..] == ix.name + (U32(|ix.columns|) + ps);
    assert b[8 + n..] == ps;
    if k < |ix.columns| { assert b[8 + n + 4 * k..12 + n + 4 * k] == b[8 + n..][4 * k..4 * k + 4]; }
  }

  lemma {:induction false} EachJoin(a: seq<Index>, b: seq<Index>, cols: seq<Column>)
    requires EncodeEach(a + b, cols).Some?
    ensures EncodeEach(a, cols).Some? && EncodeEach(b, cols).Some?
    ensures EncodeEach(a + b, cols).value == EncodeEach(a, cols).value + EncodeEach(b, cols).value
    decreases |a|
  {
    hide EncodeIndex;
    if a == [] {
      assert a + b == b;
    } else {
      assert (a + b)[1..] == a[1..] + b;
      EachJoin(a[1..], b, cols);
    }
  }

  lemma {:induction false} OffsetIs(ixs: seq<Index>, cols: seq<Column>, n: nat)
    requires n <= |ixs| && EncodeEach(ixs, cols).Some?
    ensures EncodeEach(ixs[..n], cols).Some? && IndexOffset(ixs, n) == 4 + |EncodeEach(ixs[..n], cols).value|
    ensures n < |ixs| ==> EncodeIndex(ixs[n], cols).Some? && EncodeEach([ixs[n]], cols) == EncodeIndex(ixs[n], cols)
  {
    hide EncodeIndex;
    assert ixs == ixs[..n] + ixs[n..];
    EachJoin(ixs[..n], ixs[n..], cols);
    if n < |ixs| { EachOne(ixs[n], ixs[n + 1..], cols); assert ixs[n..] == [ixs[n]] + ixs[n + 1..]; }
    if n > 0 {
      OffsetIs(ixs, cols, n - 1);
      assert ixs[..n] == ixs[..n - 1] + [ixs[n - 1]];
      EachJoin(ixs[..n - 1], [ixs[n - 1]], cols);
      IndexLayout(ixs[n - 1], cols, 0);
    }
  }

  lemma EachOne(ix: Index, more: seq<Index>, cols: seq<Column>)
    ensures EncodeEach([ix] + more, cols).Some? ==> EncodeIndex(ix, cols).Some?
    ensures EncodeIndex(ix, cols).Some? ==> EncodeEach([ix], cols) == EncodeIndex(ix, cols)
  {
    hide EncodeIndex;
    assert [ix][1..] == [] && ([ix] + more)[1..] == more;
    if EncodeIndex(ix, cols).Some? { assert EncodeIndex(ix, cols).value + [] == EncodeIndex(ix, cols).value; }
  }

  /** The catalogue: the number of indexes in four bytes, and then index after index. */
  lemma CatalogueLayout(ixs: seq<Index>, cols: seq<Column>, n: nat)
    requires n < |ixs| && EncodeIndexes(ixs, cols).Some?
    ensures var b, at := EncodeIndexes(ixs, cols).value, IndexOffset(ixs, n);
            && b[..4] == U32(|ixs|) && EncodeIndex(ixs[n], cols).Some?
            && at <= IndexOffset(ixs, n + 1) <= |b| == IndexOffset(ixs, |ixs|)
            && b[at..IndexOffset(ixs, n + 1)] == EncodeIndex(ixs[n], cols).value
  {
    hide U32, EncodeIndex, EncodeEach, IndexOffset;
    var b, each := EncodeIndexes(ixs, cols).value, EncodeEach(ixs, cols).value;
    OffsetIs(ixs, cols, n);
    OffsetIs(ixs, cols, n + 1);
    OffsetIs(ixs, cols, |ixs|);
    assert ixs[..|ixs|] == ixs && ixs[..n + 1] == ixs[..n] + [ixs[n]] && ixs == ixs[..n + 1] + ixs[n + 1..];
    EachJoin(ixs[..n], [ixs[n]], cols);
    EachJoin(ixs[..n + 1], ixs[n + 1..], cols);
    var before, one, behind := EncodeEach(ixs[..n], cols).value, EncodeIndex(ixs[n], cols).value, EncodeEach(ixs[n + 1..], cols).value;
    assert b == (U32(|ixs|) + before) + one + behind;
    assert b[|U32(|ixs|) + before|..|U32(|ixs|) + before| + |one|] == one;
  }

  datatype Names = Names(names: seq<Bytes>, next: nat)
  datatype Listed = Listed(indexes: seq<Index>, next: nat)

  function DecodePositions(buf: Bytes, i: nat, n: nat, cols: seq<Column>): (r: Option<Names>)
    requires i <= |buf|
    ensures r.Some? ==> i <= r.value.next <= |buf|
    decreases n
  {
    if n == 0 then Some(Names([], i))
    else if i + 4 > |buf| then None
    else
      var p := FromU32(buf[i..i + 4]);
      if p >= |cols| then None
      else
        var rest := DecodePositions(buf, i + 4, n - 1, cols);
        if rest.None? then None else Some(Names([cols[p].name] + rest.value.names, rest.value.next))
  }

  datatype OneIndex = OneIndex(index: Index, next: nat)

  function DecodeIndex(buf: Bytes, i: nat, cols: seq<Column>): (r: Option<OneIndex>)
    requires i <= |buf|
    ensures r.Some? ==> i <= r.value.next <= |buf|
  {
    var name := ReadStr(buf, i);
    if name.None? || name.value.next + 4 > |buf| then None
    else
      var j := name.value.next;
      var names := DecodePositions(buf, j + 4, FromU32(buf[j..j + 4]), cols);
      if names.None? then None else Some(OneIndex(Index(name.value.value, names.value.names), names.value.next))
  }

  function DecodeEach(buf: Bytes, i: nat, n: nat, cols: seq<Column>): (r: Option<Listed>)
    requires i <= |buf|
    ensures r.Some? ==> i <= r.value.next <= |buf|
    decreases n
  {
    if n == 0 then Some(Listed([], i))
    else
      var x := DecodeIndex(buf, i, cols);
      if x.None? then None
      else
        var rest := DecodeEach(buf, x.value.next, n - 1, cols);
        if rest.None? then None else Some(Listed([x.value.index] + rest.value.indexes, rest.value.next))
  }

  /** The reader stops after the announced number of indexes; bytes behind them are not looked at. */
  function DecodeIndexes(buf: Bytes, cols: seq<Column>): Option<Listed> {
    if |buf| < 4 then None else DecodeEach(buf, 4, FromU32(buf[..4]), cols)
  }

  ghost predicate Known(names: seq<Bytes>, cols: seq<Column>) {
    forall k :: 0 <= k < |names| ==> exists c <- cols :: c.name == names[k]
  }

  lemma {:induction false} PositionsExist(names: seq<Bytes>, cols: seq<Column>)
    ensures EncodePositions(names, cols).Some? <==> Known(names, cols)
  {
    if names == [] {
    } else {
      PositionsExist(names[1..], cols);
      var p := LastPosition(cols, names[0]);
      assert p.Some? <==> exists c <- cols :: c.name == names[0];
      assert names == [names[0]] + names[1..];
    }
  }

  /** The writer refuses the catalogue exactly if some index names a column that is not there. */
  lemma {:induction false} EncodeEachExactly(ixs: seq<Index>, cols: seq<Column>)
    ensures EncodeEach(ixs, cols).Some? <==> forall ix <- ixs :: Known(ix.columns, cols)
  {
    hide Known, LastPosition;
    if ixs == [] {
    } else {
      PositionsExist(ixs[0].columns, cols);
      EncodeEachExactly(ixs[1..], cols);
      assert ixs == [ixs[0]] + ixs[1..];
    }
  }

  lemma UnknownColumnsAreRefusedExactly(ixs: seq<Index>, cols: seq<Column>)
    ensures EncodeIndexes(ixs, cols).Some? <==> forall ix <- ixs :: Known(ix.columns, cols)
  {
    EncodeEachExactly(ixs, cols);
  }

  lemma {:induction false} PositionsRoundTrip(names: seq<Bytes>, cols: seq<Column>, buf: Bytes, i: nat, post: Bytes)
    requires |cols| <= TWO_32 && i <= |buf| && EncodePositions(names, cols).Some?
    requires buf[i..] == EncodePositions(names, cols).value + post
    ensures var next := i + |EncodePositions(names, cols).value|;
            next <= |buf| && buf[next..] == post && DecodePositions(buf, i, |names|, cols) == Some(Names(names, next))
  {
    hide U32, FromU32;
    if names == [] {
      assert [] + post == post;
    } else {
      var p := LastPosition(cols, names[0]).value;
      var rest := EncodePositions(names[1..], cols).value;
      assert U32(p) + rest + post == U32(p) + (rest + post);
      ReadOfU32(p, buf, i, rest + post);
      PositionsRoundTrip(names[1..], cols, buf, i + 4, post);
      assert names == [names[0]] + names[1..];
    }
  }

  ghost predicate Fits(ix: Index) {
    |ix.name| < TWO_32 && |ix.columns| < TWO_32
  }

  lemma IndexRoundTrip(ix: Index, cols: seq<Column>, buf: Bytes, i: nat, post: Bytes)
    requires |cols| <= TWO_32 && i <= |buf| && EncodeIndex(ix, cols).Some? && Fits(ix)
    requires buf[i..] == EncodeIndex(ix, cols).value + post
    ensures var next := i + |EncodeIndex(ix, cols).value|;
            next <= |buf| && buf[next..] == post && DecodeIndex(buf, i, cols) == Some(OneIndex(ix, next))
  {
    hide U32, FromU32, ReadStr, EncodePositions, DecodePositions;
    var ps := EncodePositions(ix.columns, cols).value;
    var count := U32(|ix.columns|);
    assert Str(ix.name) + count + ps + post == Str(ix.name) + (count + (ps + post));
    ReadOfStr(ix.name, buf, i, count + (ps + post));
    var j := i + 4 + |ix.name|;
    ReadOfU32(|ix.columns|, buf, j, ps + post);
    PositionsRoundTrip(ix.columns, cols, buf, j + 4, post);
  }

  lemma EachSplit(ixs: seq<Index>, cols: seq<Column>)
    requires EncodeEach(ixs, cols).Some?
    ensures ixs == [] ==> EncodeEach(ixs, cols).value == []
    ensures ixs != [] ==> EncodeIndex(ixs[0], cols).Some? && EncodeEach(ixs[1..], cols).Some?
    ensures ixs != [] ==> EncodeEach(ixs, cols).value == EncodeIndex(ixs[0], cols).value + EncodeEach(ixs[1..], cols).value
  {
  }

  lemma {:induction false} EachRoundTrip(ixs: seq<Index>, cols: seq<Column>, buf: Bytes, i: nat, post: Bytes)
    requires |cols| <= TWO_32 && i <= |buf| && EncodeEach(ixs, cols).Some?
    requires forall ix <- ixs :: Fits(ix)
    requires buf[i..] == EncodeEach(ixs, cols).value + post
    ensures var next := i + |EncodeEach(ixs, cols).value|;
            next <= |buf| && buf[next..] == post && DecodeEach(buf, i, |ixs|, cols) == Some(Listed(ixs, next))
  {
    hide EncodeIndex, DecodeIndex, Fits, EncodeEach;
    EachSplit(ixs, cols);
    if ixs == [] {
      assert [] + post == post;
    } else {
      var x, rest := EncodeIndex(ixs[0], cols).value, EncodeEach(ixs[1..], cols).value;
      assert x + rest + post == x + (rest + post);
      IndexRoundTrip(ixs[0], cols, buf, i, rest + post);
      EachRoundTrip(ixs[1..], cols, buf, i + |x|, post);
      assert ixs == [ixs[0]] + ixs[1..];
    }
  }

  /** Index names and column names come back as written, whatever follows the catalogue and even if the
      table has two columns of one name: any position of that name gives the name back. */
  lemma CatalogueRoundTrip(ixs: seq<Index>, cols: seq<Column>, post: Bytes)
    requires EncodeIndexes(ixs, cols).Some?
    requires |cols| <= TWO_32 && |ixs| < TWO_32 && forall ix <- ixs :: Fits(ix)
    ensures DecodeIndexes(EncodeIndexes(ixs, cols).value + post, cols)
         == Some(Listed(ixs, |EncodeIndexes(ixs, cols).value|))
  {
    hide U32, FromU32, EncodeEach, DecodeEach;
    var each := EncodeEach(ixs, cols).value;
    var buf := EncodeIndexes(ixs, cols).value + post;
    assert buf == U32(|ixs|) + (each + post);
    assert buf[0..] == buf && buf[0..4] == buf[..4];
    ReadOfU32(|ixs|, buf, 0, each + post);
    EachRoundTrip(ixs, cols, buf, 4, post);
  }

  ghost predicate DistinctNames(cols: seq<Column>) {
    forall i, j :: 0 <= i < j < |cols| ==> cols[i].name != cols[j].name
  }

  lemma OnlyPosition(cols: seq<Column>, p: nat)
    requires DistinctNames(cols) && p < |cols|
    ensures LastPosition(cols, cols[p].name) == Some(p)
  {
  }

  lemma {:induction false} DecodedPositionsEncode(buf: Bytes, i: nat, n: nat, cols: seq<Column>)
    requires i <= |buf| && DistinctNames(cols) && DecodePositions(buf, i, n, cols).Some?
    ensures var d := DecodePositions(buf, i, n, cols).value;
            |d.names| == n && EncodePositions(d.names, cols).Some?
            && buf[i..] == EncodePositions(d.names, cols).value + buf[d.next..]
    decreases n
  {
    hide U32, FromU32, LastPosition;
    if n > 0 {
      var p := FromU32(buf[i..i + 4]);
      U32OfRead(buf, i);
      DecodedPositionsEncode(buf, i + 4, n - 1, cols);
      var rest := DecodePositions(buf, i + 4, n - 1, cols).value;
      var d := DecodePositions(buf, i, n, cols).value;
      assert d.names[0] == cols[p].name && d.names[1..] == rest.names;
      OnlyPosition(cols, p);
      var e := EncodePositions(rest.names, cols).value;
      assert U32(p) + (e + buf[d.next..]) == (U32(p) + e) + buf[d.next..];
    }
  }

  lemma DecodedIndexEncodes(buf: Bytes, i: nat, cols: seq<Column>)
    requires i <= |buf| && DistinctNames(cols) && DecodeIndex(buf, i, cols).Some?
    ensures var d := DecodeIndex(buf, i, cols).value;
            EncodeIndex(d.index, cols).Some? && buf[i..] == EncodeIndex(d.index, cols).value + buf[d.next..]
  {
    hide U32, FromU32, ReadStr, Str, EncodePositions, DecodePositions;
    var name := ReadStr(buf, i).value;
    var j, n := name.next, FromU32(buf[name.next..name.next + 4]);
    StrOfRead(buf, i);
    U32OfRead(buf, j);
    DecodedPositionsEncode(buf, j + 4, n, cols);
    var d := DecodeIndex(buf, i, cols).value;
    var ps := EncodePositions(d.index.columns, cols).value;
    assert Str(name.value) + (U32(n) + (ps + buf[d.next..])) == (Str(name.value) + U32(n) + ps) + buf[d.next..];
  }

  lemma {:induction false} DecodedEachEncode(buf: Bytes, i: nat, n: nat, cols: seq<Column>)
    requires i <= |buf| && DistinctNames(cols) && DecodeEach(buf, i, n, cols).Some?
    ensures var d := DecodeEach(buf, i, n, cols).value;
            |d.indexes| == n && EncodeEach(d.indexes, cols).Some?
            && buf[i..] == EncodeEach(d.indexes, cols).value + buf[d.next..]
    decreases n
  {
    hide DecodeIndex, EncodeIndex, DistinctNames;
    if n > 0 {
      var x := DecodeIndex(buf, i, cols).value;
      DecodedIndexEncodes(buf, i, cols);
      DecodedEachEncode(buf, x.next, n - 1, cols);
      var rest, d := DecodeEach(buf, x.next, n - 1, cols).value, DecodeEach(buf, i, n, cols).value;
      assert d.indexes[0] == x.index && d.indexes[1..] == rest.indexes;
      var e, f := EncodeIndex(x.index, cols).value, EncodeEach(rest.indexes, cols).value;
      assert e + (f + buf[d.next..]) == (e + f) + buf[d.next..];
    }
  }

  /** With distinct column names, the bytes that were read are the encoding of what was read. */
  lemma DecodedCatalogueEncodes(buf: Bytes, cols: seq<Column>)
    requires DistinctNames(cols) && DecodeIndexes(buf, cols).Some?
    ensures var d := DecodeIndexes(buf, cols).value;
            d.next <= |buf| && EncodeIndexes(d.indexes, cols) == Some(buf[..d.next])
  {
    hide U32, FromU32, DecodeEach, EncodeEach;
    U32OfRead(buf, 0);
    assert buf[0..] == buf && buf[0..4] == buf[..4];
    DecodedEachEncode(buf, 4, FromU32(buf[..4]), cols);
    var d := DecodeIndexes(buf, cols).value;
    var w := EncodeIndexes(d.indexes, cols).value;
    assert buf == w + buf[d.next..];
    assert |buf| == |w| + (|buf| - d.next);
    assert buf[..d.next] == w;
  }

  /* ---------- The loops ---------- */

  method SerialiseIndexes(ixs: seq<Index>, cols: seq<Column>) returns (r: Option<Bytes>)
    ensures r == EncodeIndexes(ixs, cols)
  {
    hide U32, Str, LastPosition;
    var buf: Bytes := U32(|ixs|);
    assert ixs[0..] == ixs;
    for i := 0 to |ixs|
      invariant EncodeIndexes(ixs, cols) == match EncodeEach(ixs[i..], cols) case None => None case Some(rest) => Some(buf + rest)
    {
      assert ixs[i..][1..] == ixs[i + 1..];
      ghost var rest := EncodeEach(ixs[i + 1..], cols);
      ghost var before := buf;
      var names := ixs[i].columns;
      var head := Str(ixs[i].name) + U32(|names|);
      var ps := SerialisePositions(names, cols);
      if ps.None? { return None; }
      assert rest.Some? ==> before + ((head + ps.value) + rest.value) == (before + head + ps.value) + rest.value;
      buf := buf + head + ps.value;
    }
    assert buf + [] == buf;
    return Some(buf);
  }

  lemma SamePosition(cols: seq<Column>, name: Bytes, named: Column -> bool)
    requires forall c :: named(c) <==> c.name == name
    ensures LastWhere(cols, named) == LastPosition(cols, name)
  {
  }

  method SerialisePositions(names: seq<Bytes>, cols: seq<Column>) returns (r: Option<Bytes>)
    ensures r == EncodePositions(names, cols)
  {
    hide U32, LastPosition;
    var buf: Bytes := [];
    ghost var whole := EncodePositions(names, cols);
    assert names[0..] == names;
    assert whole.Some? ==> [] + whole.value == whole.value;
    for k := 0 to |names|
      invariant whole == match EncodePositions(names[k..], cols) case None => None case Some(rest) => Some(buf + rest)
    {
      assert names[k..][1..] == names[k + 1..];
      var name := names[k];
      var named := (c: Column) => c.name == name;
      var p := FindLast(cols, named);
      SamePosition(cols, name, named);
      if p == -1 { return None; }
      ghost var rest := EncodePositions(names[k + 1..], cols);
      assert rest.Some? ==> buf + (U32(p) + rest.value) == (buf + U32(p)) + rest.value;
      buf := buf + U32(p);
    }
    assert buf + [] == buf;
    return Some(buf);
  }

  method DeserialiseIndexes(buf: Bytes, cols: seq<Column>) returns (r: Option<seq<Index>>)
    ensures r == match DecodeIndexes(buf, cols) case None => None case Some(d) => Some(d.indexes)
  {
    hide ReadStr, FromU32, DecodePositions;
    if |buf| < 4 { return None; }
    var n := FromU32(buf[..4]);
    var i := 4;
    var ixs: seq<Index> := [];
    ghost var whole := DecodeEach(buf, 4, n, cols);
    assert whole.Some? ==> [] + whole.value.indexes == whole.value.indexes;
    for j := 0 to n
      invariant 4 <= i <= |buf|
      invariant whole == match DecodeEach(buf, i, n - j, cols) case None => None case Some(d) => Some(Listed(ixs + d.indexes, d.next))
    {
      var name := ReadStr(buf, i);
      if name.None? || name.value.next + 4 > |buf| { return None; }
      var at := name.value.next;
      var names := DeserialisePositions(buf, at + 4, FromU32(buf[at..at + 4]), cols);
      if names.None? { return None; }
      var ix := Index(name.value.value, names.value.names);
      ghost var rest := DecodeEach(buf, names.value.next, n - j - 1, cols);
      assert rest.Some? ==> ixs + ([ix] + rest.value.indexes) == (ixs + [ix]) + rest.value.indexes;
      ixs := ixs + [ix];
      i := names.value.next;
    }
    assert ixs + [] == ixs;
    return Some(ixs);
  }

  method DeserialisePositions(buf: Bytes, start: nat, n: nat, cols: seq<Column>) returns (r: Option<Names>)
    requires start <= |buf|
    ensures r == DecodePositions(buf, start, n, cols)
  {
    hide FromU32;
    var i := start;
    var names: seq<Bytes> := [];
    ghost var whole := DecodePositions(buf, start, n, cols);
    assert whole.Some? ==> [] + whole.value.names == whole.value.names;
    for k := 0 to n
      invariant start <= i <= |buf|
      invariant whole == match DecodePositions(buf, i, n - k, cols) case None => None case Some(d) => Some(Names(names + d.names, d.next))
    {
      if i + 4 > |buf| { return None; }
      var p := FromU32(buf[i..i + 4]);
      if p >= |cols| { return None; }
      ghost var rest := DecodePositions(buf, i + 4, n - k - 1, cols);
      assert rest.Some? ==> names + ([cols[p].name] + rest.value.names) == (names + [cols[p].name]) + rest.value.names;
      names := names + [cols[p].name];
      i := i + 4;
    }
    assert names + [] == names;
    return Some(Names(names, i));
  }
}
