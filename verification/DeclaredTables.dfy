/** The tables that parsed CREATE TABLE statements declare (sql_parser/ast.go, sql_parser/parser.go), and
    what an insert into them stores. */
module DeclaredTables {
  import opened Bytes
  import opened Rows
  import opened Catalog
  import opened Tables
  import opened Parsers
  import opened Grammar

  /** The number a column type is stored under. */
  function KindOf(kind: ColumnType): (k: Byte)
    ensures k <= 2
  {
    match kind
    case INT => 0
    case STRING => 1
    case BOOL => 2
  }

  /** The table of a parsed CREATE TABLE; enc is how Go holds a text as bytes. */
  function TableOf(enc: string -> Bytes, p: CreateTable, indexes: seq<Index>): (t: Table)
    ensures |t.columns| == |p.columns| && t.pkPosition == p.pkPosition && t.indexes == indexes
  {
    Table(seq(|p.columns|, i requires 0 <= i < |p.columns| => Catalog.Column(KindOf(p.columns[i].kind), enc(p.columns[i].name))),
          p.pkPosition, indexes)
  }

  /** The word behind the name of a column in the statement. */
  function TypeWord(d: ColumnDef): string {
    ItemTokens(Item.Column(d))[1].value
  }

  /** Into a table as declared, an insert is refused exactly if the number of values is wrong, or a column
      declared INT gets what is no integer, or one declared BOOL what is neither 0 nor 1; and it stores
      four bytes for INT, the length and the text for STRING, and one byte for BOOL. */
  lemma InsertAsDeclared(enc: string -> Bytes, p: CreateTable, indexes: seq<Index>, name: Bytes, row: Row)
      returns (cells: seq<Bytes>)
    ensures var w := InsertWrites(name, TableOf(enc, p, indexes), row);
            && (w.Refused? <==>
                  || |row| != |p.columns|
                  || exists i :: 0 <= i < |row| && ((TypeWord(p.columns[i]) == "INT" && Atoi(row[i]).None?) ||
                                                    (TypeWord(p.columns[i]) == "BOOL" && Atoi(row[i]) !in {Some(0), Some(1)})))
            && (w.Writes? ==>
                  && |cells| == |row| && w.puts != [] && w.puts[0].1 == Laid(cells)
                  && forall i :: 0 <= i < |row| ==>
                       && (TypeWord(p.columns[i]) == "INT" ==> Atoi(row[i]).Some? && FourBytes(cells[i], Atoi(row[i]).value))
                       && (TypeWord(p.columns[i]) == "STRING" ==> |cells[i]| == 4 + |row[i]| && FourBytes(cells[i][..4], |row[i]|) && cells[i][4..] == row[i])
                       && (TypeWord(p.columns[i]) == "BOOL" ==> |cells[i]| == 1 && Atoi(row[i]) == Some(cells[i][0] as int)))
  {
    hide InsertWrites, FourBytes, Atoi, Laid;
    var t := TableOf(enc, p, indexes);
    forall c | c in t.columns ensures c.kind <= 2 {
      var i :| 0 <= i < |t.columns| && t.columns[i] == c;
      assert c == Catalog.Column(KindOf(p.columns[i].kind), enc(p.columns[i].name));
    }
    cells := InsertByKind(name, t, row);
    forall d ensures TypeWord(d) == if KindOf(d.kind) == 0 then "INT" else if KindOf(d.kind) == 1 then "STRING" else "BOOL" {}
    if |row| == |p.columns| {
      forall i | 0 <= i < |row|
        ensures RefusedText(t.columns[i].kind, row[i]) <==>
                (TypeWord(p.columns[i]) == "INT" && Atoi(row[i]).None?) || (TypeWord(p.columns[i]) == "BOOL" && Atoi(row[i]) !in {Some(0), Some(1)})
      {
      }
    }
  }
}
