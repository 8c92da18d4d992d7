/** The SQL parser (sql_parser/parser.go). Error texts are left out: a syntax error is a syntax error. */
module Parsers {
  import opened Bytes
  import opened Tokenisers

  datatype ColumnType = INT | STRING | BOOL

  datatype ColumnDef = ColumnDef(name: string, kind: ColumnType)

  datatype CreateTable = CreateTable(table: string, columns: seq<ColumnDef>, pkPosition: nat)

  datatype InsertInto = InsertInto(table: string, values: seq<string>)

  datatype QueryCondition = QueryCondition(column: string, op: string, value: string)

  datatype SelectQuery = SelectQuery(table: string, columns: seq<string>, conditions: seq<QueryCondition>)

  /** A parse that may also never end: INSERT can spin on a character no token starts with. */
  datatype Outcome<+T> = Accepted(value: T) | SyntaxError | Diverges

  const COLUMN_LIMIT: nat := 10
  const CONDITION_LIMIT: nat := 11

  const STUCK: Token := Token(IDENTIFIER, "")

  /* ---------- Parser states ---------- */

  datatype Source = Source(u: Unicode, input: string)

  /** currentToken, and where the tokeniser stands behind it. */
  datatype State = State(cur: Token, pos: nat)

  datatype Parsed<+T> = Parsed(value: T, state: State)

  function Advance(s: Source, pos: nat): (st: State)
    requires pos <= |s.input|
    ensures pos <= st.pos <= |s.input|
  {
    var r := Lex(s.u, s.input, pos);
    State(r.token, r.pos)
  }

  /** consume. */
  function Consume(s: Source, st: State, kind: TokenType, expected: string): (r: Option<State>)
    requires st.pos <= |s.input|
    ensures r.Some? ==> st.pos <= r.value.pos <= |s.input|
  {
    if st.cur.kind != kind || (expected != "" && st.cur.value != expected) then None
    else Some(Advance(s, st.pos))
  }

  /** What is left to read, counting a current token that holds something as one more. */
  function Measure(s: Source, st: State): nat
    requires st.pos <= |s.input|
  {
    |s.input| - st.pos + if st.cur.kind == EOF || st.cur == STUCK then 0 else 1
  }

  lemma ConsumeMeasure(s: Source, st: State, kind: TokenType, expected: string)
    requires st.pos <= |s.input| && Consume(s, st, kind, expected).Some?
    ensures Measure(s, Consume(s, st, kind, expected).value) <= Measure(s, st)
    ensures st.cur.kind != EOF && st.cur != STUCK ==> Measure(s, Consume(s, st, kind, expected).value) < Measure(s, st)
  {
  }

  /* ---------- SELECT ---------- */

  function SelectColumns(s: Source, st: State, i: nat, acc: seq<string>): (r: Option<Parsed<seq<string>>>)
    requires st.pos <= |s.input| && i <= COLUMN_LIMIT
    ensures r.Some? ==> st.pos <= r.value.state.pos <= |s.input|
    decreases COLUMN_LIMIT - i
  {
    if st.cur.value == "FROM" then Some(Parsed(acc, st))
    else
      var next := if st.cur.value == "," then Consume(s, st, SYMBOL, ",") else Some(st);
      if next.None? || i == COLUMN_LIMIT then None
      else
        var at := next.value;
        var read := if at.cur.value == "*" then Consume(s, at, SYMBOL, "*") else Consume(s, at, IDENTIFIER, "");
        if read.None? then None else SelectColumns(s, read.value, i + 1, acc + [at.cur.value])
  }

  function OneCondition(s: Source, st: State): (r: Option<Parsed<QueryCondition>>)
    requires st.pos <= |s.input|
    ensures r.Some? ==> st.pos <= r.value.state.pos <= |s.input|
  {
    var a := Consume(s, st, IDENTIFIER, "");
    if a.None? then None
    else
      var b := Consume(s, a.value, CONDITIONAL_OPERATOR, "");
      if b.None? then None
      else
        var c := Consume(s, b.value, IDENTIFIER, "");
        if c.None? then None
        else Some(Parsed(QueryCondition(st.cur.value, a.value.cur.value, b.value.cur.value), c.value))
  }

  function SelectConditions(s: Source, st: State, i: nat, acc: seq<QueryCondition>): (r: Option<Parsed<seq<QueryCondition>>>)
    requires st.pos <= |s.input| && i <= CONDITION_LIMIT
    ensures r.Some? ==> st.pos <= r.value.state.pos <= |s.input|
    decreases CONDITION_LIMIT - i
  {
    if st.cur.value == ";" then Some(Parsed(acc, st))
    else
      var next := if i > 0 then Consume(s, st, KEYWORD, "AND") else Some(st);
      if next.None? || i == CONDITION_LIMIT then None
      else
        var one := OneCondition(s, next.value);
        if one.None? then None else SelectConditions(s, one.value.state, i + 1, acc + [one.value.value])
  }

  function WhereClause(s: Source, st: State): (r: Option<Parsed<seq<QueryCondition>>>)
    requires st.pos <= |s.input|
    ensures r.Some? ==> r.value.state.pos <= |s.input|
  {
    if st.cur.value != "WHERE" then Some(Parsed([], st))
    else
      var start := Consume(s, st, KEYWORD, "WHERE");
      if start.None? then None
      else
        var r := SelectConditions(s, start.value, 0, []);
        if r.None? || r.value.value == [] then None else r
  }

  function SelectFrom(s: Source, st: State, columns: seq<string>): Option<SelectQuery>
    requires st.pos <= |s.input|
  {
    var a := Consume(s, st, KEYWORD, "FROM");
    if columns == [] || a.None? then None
    else
      var b := Consume(s, a.value, IDENTIFIER, "");
      if b.None? then None
      else
        var cs := WhereClause(s, b.value);
        if cs.None? || Consume(s, cs.value.state, SYMBOL, ";").None? then None
        else Some(SelectQuery(a.value.cur.value, columns, cs.value.value))
  }

  function ParseSelect(s: Source): Option<SelectQuery> {
    var start := Consume(s, Advance(s, 0), KEYWORD, "SELECT");
    if start.None? then None
    else
      var columns := SelectColumns(s, start.value, 0, []);
      if columns.None? then None else SelectFrom(s, columns.value.state, columns.value.value)
  }

  /* ---------- INSERT ---------- */

  /** A comma is passed over; nothing else is. */
  function SkipComma(s: Source, st: State): (r: State)
    requires st.pos <= |s.input|
    ensures st.pos <= r.pos <= |s.input| && Measure(s, r) <= Measure(s, st)
  {
    var next := if st.cur.value == "," then Consume(s, st, SYMBOL, ",") else None;
    if next.None? then st
    else
      assert Measure(s, next.value) <= Measure(s, st) by { ConsumeMeasure(s, st, SYMBOL, ","); }
      next.value
  }

  function InsertValues(s: Source, st: State, acc: seq<string>): (r: Outcome<Parsed<seq<string>>>)
    requires st.pos <= |s.input|
    ensures r.Accepted? ==> r.value.state.pos <= |s.input|
    decreases Measure(s, st)
  {
    if st.cur.value == ")" then Accepted(Parsed(acc, st))
    else
      var at := SkipComma(s, st);
      if at.cur == STUCK then Diverges
      else
        var read := Consume(s, at, IDENTIFIER, "");
        if read.None? then SyntaxError
        else
          assert Measure(s, read.value) < Measure(s, st) by { ConsumeMeasure(s, at, IDENTIFIER, ""); }
          InsertValues(s, read.value, acc + [at.cur.value])
  }

  function InsertHead(s: Source): (r: Option<Parsed<string>>)
    ensures r.Some? ==> r.value.state.pos <= |s.input|
  {
    var a := Consume(s, Advance(s, 0), KEYWORD, "INSERT");
    if a.None? then None
    else
      var b := Consume(s, a.value, KEYWORD, "INTO");
      if b.None? then None
      else
        var c := Consume(s, b.value, IDENTIFIER, "");
        if c.None? then None
        else
          var d := Consume(s, c.value, KEYWORD, "VALUES");
          if d.None? then None
          else
            var e := Consume(s, d.value, SYMBOL, "(");
            if e.None? then None else Some(Parsed(b.value.cur.value, e.value))
  }

  function ParseInsert(s: Source): Outcome<InsertInto> {
    var head := InsertHead(s);
    if head.None? then SyntaxError
    else
      var values := InsertValues(s, head.value.state, []);
      match values
      case SyntaxError => SyntaxError
      case Diverges => Diverges
      case Accepted(p) =>
        if Consume(s, p.state, SYMBOL, ")").None? then SyntaxError
        else Accepted(InsertInto(head.value.value, p.value))
  }

  /** Why a stuck token means the loop never ends: consuming it changes nothing. */
  lemma StuckRepeats(s: Source, pos: nat)
    requires pos <= |s.input| && Advance(s, pos).cur == STUCK
    ensures Consume(s, Advance(s, pos), IDENTIFIER, "") == Some(Advance(s, pos))
  {
    StuckExactly(s.u, s.input, pos);
  }

  lemma StuckNeedsUnsupported(s: Source, pos: nat)
    requires pos <= |s.input| && forall i :: 0 <= i < |s.input| ==> !Unsupported(s.u, s.input[i])
    ensures Advance(s, pos).cur != STUCK
  {
  }

  lemma {:induction false} ValuesEnd(s: Source, st: State, acc: seq<string>)
    requires st.pos <= |s.input| && forall i :: 0 <= i < |s.input| ==> !Unsupported(s.u, s.input[i])
    requires st.cur != STUCK
    ensures !InsertValues(s, st, acc).Diverges?
    decreases Measure(s, st)
  {
    hide Unsupported;
    if st.cur.value != ")" {
      var at := SkipComma(s, st);
      StuckNeedsUnsupported(s, st.pos);
      var read := Consume(s, at, IDENTIFIER, "");
      if read.Some? {
        ConsumeMeasure(s, at, IDENTIFIER, "");
        StuckNeedsUnsupported(s, at.pos);
        ValuesEnd(s, read.value, acc + [at.cur.value]);
      }
    }
  }

  /** INSERT parsing ends on every input made of spaces, letters, digits, symbols and operators. */
  lemma InsertEnds(s: Source)
    requires forall i :: 0 <= i < |s.input| ==> !Unsupported(s.u, s.input[i])
    ensures !ParseInsert(s).Diverges?
  {
    var head := InsertHead(s);
    if head.Some? {
      HeadNotStuck(s);
      ValuesEnd(s, head.value.state, []);
    }
  }

  lemma HeadNotStuck(s: Source)
    requires forall i :: 0 <= i < |s.input| ==> !Unsupported(s.u, s.input[i])
    requires InsertHead(s).Some?
    ensures InsertHead(s).value.state.cur != STUCK
  {
    forall pos: nat | pos <= |s.input| ensures Advance(s, pos).cur != STUCK { StuckNeedsUnsupported(s, pos); }
  }

  /* ---------- CREATE TABLE ---------- */

  function ColumnTypeOf(name: string): Option<ColumnType> {
    if name == "INT" then Some(INT)
    else if name == "STRING" then Some(STRING)
    else if name == "BOOL" then Some(BOOL)
    else None
  }

  function PrimaryKeyColumn(s: Source, st: State): (r: Option<Parsed<string>>)
    requires st.pos <= |s.input|
    ensures r.Some? ==> r.value.state.pos <= |s.input|
    ensures r.Some? ==> Measure(s, r.value.state) < Measure(s, st)
  {
    var a := Consume(s, st, KEYWORD, "PRIMARY");
    if a.None? then None
    else
      var b := Consume(s, a.value, KEYWORD, "KEY");
      if b.None? then None
      else
        var c := Consume(s, b.value, SYMBOL, "(");
        if c.None? then None
        else
          var d := Consume(s, c.value, IDENTIFIER, "");
          if d.None? then None
          else
            var e := Consume(s, d.value, SYMBOL, ")");
            if e.None? then None
            else
              assert Measure(s, e.value) < Measure(s, st) by {
                ConsumeMeasure(s, st, KEYWORD, "PRIMARY");
                ConsumeMeasure(s, a.value, KEYWORD, "KEY");
                ConsumeMeasure(s, b.value, SYMBOL, "(");
                ConsumeMeasure(s, c.value, IDENTIFIER, "");
                ConsumeMeasure(s, d.value, SYMBOL, ")");
              }
              Some(Parsed(c.value.cur.value, e.value))
  }

  function OneColumn(s: Source, st: State): (r: Option<Parsed<ColumnDef>>)
    requires st.pos <= |s.input|
    ensures r.Some? ==> r.value.state.pos <= |s.input|
    ensures r.Some? ==> Measure(s, r.value.state) < Measure(s, st)
  {
    var a := Consume(s, st, IDENTIFIER, "");
    if a.None? then None
    else
      var b := Consume(s, a.value, IDENTIFIER, "");
      if b.None? then None
      else
        var kind := ColumnTypeOf(a.value.cur.value);
        if kind.None? then None
        else
          assert Measure(s, b.value) < Measure(s, st) by {
            ConsumeMeasure(s, st, IDENTIFIER, "");
            ConsumeMeasure(s, a.value, IDENTIFIER, "");
          }
          Some(Parsed(ColumnDef(st.cur.value, kind.value), b.value))
  }

  datatype Columns = Columns(defs: seq<ColumnDef>, pk: string)

  function CreateColumns(s: Source, st: State, acc: Columns): (r: Option<Parsed<Columns>>)
    requires st.pos <= |s.input|
    ensures r.Some? ==> r.value.state.pos <= |s.input|
    decreases Measure(s, st)
  {
    if st.cur.value == ")" then Some(Parsed(acc, st))
    else
      var at := SkipComma(s, st);
      if at.cur.value == "PRIMARY" then
        var pk := PrimaryKeyColumn(s, at);
        if pk.None? then None else CreateColumns(s, pk.value.state, acc.(pk := pk.value.value))
      else
        var col := OneColumn(s, at);
        if col.None? then None else CreateColumns(s, col.value.state, acc.(defs := acc.defs + [col.value.value]))
  }

  /** Without a primary key the first column is taken; a named one must exist, and the last column of that name counts. */
  function PkPosition(columns: Columns): (p: Option<nat>)
    ensures p.Some? ==> columns.defs == [] || p.value < |columns.defs|
  {
    if columns.pk == "" then Some(0) else LastNamed(columns.defs, columns.pk)
  }

  function LastNamed(defs: seq<ColumnDef>, name: string): (p: Option<nat>)
    ensures p.Some? ==> p.value < |defs| && defs[p.value].name == name && forall i :: p.value < i < |defs| ==> defs[i].name != name
    ensures p.None? ==> forall i :: 0 <= i < |defs| ==> defs[i].name != name
  {
    LastWhere(defs, (d: ColumnDef) => d.name == name)
  }

  function CreateHead(s: Source): (r: Option<Parsed<string>>)
    ensures r.Some? ==> r.value.state.pos <= |s.input|
  {
    var a := Consume(s, Advance(s, 0), KEYWORD, "CREATE");
    if a.None? then None
    else
      var b := Consume(s, a.value, KEYWORD, "TABLE");
      if b.None? then None
      else
        var c := Consume(s, b.value, IDENTIFIER, "");
        if c.None? then None
        else
          var d := Consume(s, c.value, SYMBOL, "(");
          if d.None? then None else Some(Parsed(b.value.cur.value, d.value))
  }

  function ParseCreate(s: Source): Option<CreateTable> {
    var head := CreateHead(s);
    if head.None? then None
    else
      var columns := CreateColumns(s, head.value.state, Columns([], ""));
      if columns.None? || columns.value.value.defs == [] then None
      else
        var p := PkPosition(columns.value.value);
        if p.None? || Consume(s, columns.value.state, SYMBOL, ")").None? then None
        else Some(CreateTable(head.value.value, columns.value.value.defs, p.value))
  }

  /* ---------- The parser object ---------- */

  class Parser {
    const tokeniser: Tokeniser
    var currentToken: Token

    ghost predicate Valid()
      reads this, tokeniser
    {
      tokeniser.Valid()
    }

    ghost function Src(): Source {
      Source(tokeniser.u, tokeniser.input)
    }

    ghost function St(): (st: State)
      requires Valid()
      reads this, tokeniser
      ensures st.pos <= |Src().input|
    {
      State(currentToken, tokeniser.pos)
    }

    constructor (u: Unicode, input: string)
      ensures Valid() && fresh(tokeniser) && Src() == Source(u, input) && St() == Advance(Source(u, input), 0)
    {
      var t := new Tokeniser(u, input);
      var token := t.NextToken();
      tokeniser, currentToken := t, token;
    }

    method Eat(kind: TokenType, expected: string) returns (ok: bool)
      requires Valid()
      modifies this, tokeniser
      ensures Valid() && ok == Consume(Src(), old(St()), kind, expected).Some?
      ensures St() == if ok then Consume(Src(), old(St()), kind, expected).value else old(St())
    {
      if currentToken.kind != kind || (expected != "" && currentToken.value != expected) { return false; }
      currentToken := tokeniser.NextToken();
      return true;
    }

    method ParseColumnsFromSelectQuery() returns (columns: Option<seq<string>>)
      requires Valid()
      modifies this, tokeniser
      ensures Valid()
      ensures var r := SelectColumns(Src(), old(St()), 0, []);
              if r.None? || r.value.value == [] then columns.None?
              else columns == Some(r.value.value) && St() == r.value.state
    {
      hide Consume;
      var required: seq<string> := [];
      var i := 0;
      ghost var whole := SelectColumns(Src(), St(), 0, []);
      while currentToken.value != "FROM"
        invariant Valid() && i <= COLUMN_LIMIT
        invariant whole == SelectColumns(Src(), St(), i, required)
        decreases COLUMN_LIMIT - i
      {
        if currentToken.value == "," {
          var ok := Eat(SYMBOL, ",");
          if !ok { return None; }
        }
        if i == COLUMN_LIMIT { return None; }
        var name := currentToken.value;
        var ok;
        if name == "*" {
          ok := Eat(SYMBOL, "*");
        } else {
          ok := Eat(IDENTIFIER, "");
        }
        if !ok { return None; }
        required := required + [name];
        i := i + 1;
      }
      return if |required| == 0 then None else Some(required);
    }

    method ParseOneCondition() returns (c: Option<QueryCondition>)
      requires Valid()
      modifies this, tokeniser
      ensures Valid()
      ensures var r := OneCondition(Src(), old(St()));
              c.Some? == r.Some? && (r.Some? ==> c.value == r.value.value && St() == r.value.state)
    {
      hide Consume;
      var column := currentToken.value;
      var ok := Eat(IDENTIFIER, "");
      if !ok { return None; }
      var op := currentToken.value;
      ok := Eat(CONDITIONAL_OPERATOR, "");
      if !ok { return None; }
      var value := currentToken.value;
      ok := Eat(IDENTIFIER, "");
      return if ok then Some(QueryCondition(column, op, value)) else None;
    }

    method ParseQueryConditionsFromSelectQuery() returns (conditions: Option<seq<QueryCondition>>)
      requires Valid() && currentToken.value == "WHERE"
      modifies this, tokeniser
      ensures Valid()
      ensures var r := WhereClause(Src(), old(St()));
              conditions.Some? == r.Some? && (r.Some? ==> conditions.value == r.value.value && St() == r.value.state)
    {
      hide Consume, OneCondition;
      var ok := Eat(KEYWORD, "WHERE");
      if !ok { return None; }
      var cs: seq<QueryCondition> := [];
      var i := 0;
      ghost var whole := SelectConditions(Src(), St(), 0, []);
      while currentToken.value != ";"
        invariant Valid() && i <= CONDITION_LIMIT
        invariant whole == SelectConditions(Src(), St(), i, cs)
        decreases CONDITION_LIMIT - i
      {
        if i > 0 {
          ok := Eat(KEYWORD, "AND");
          if !ok { return None; }
        }
        if i == CONDITION_LIMIT { return None; }
        var c := ParseOneCondition();
        if c.None? { return None; }
        cs := cs + [c.value];
        i := i + 1;
      }
      return if |cs| == 0 then None else Some(cs);
    }

    /** ParseSelectFromTable, on every input. */
    method ParseSelectFromTable() returns (q: Option<SelectQuery>)
      requires Valid() && St() == Advance(Src(), 0)
      modifies this, tokeniser
      ensures q == ParseSelect(Src())
    {
      hide Consume, SelectColumns, WhereClause;
      var ok := Eat(KEYWORD, "SELECT");
      if !ok { return None; }
      var columns := ParseColumnsFromSelectQuery();
      if columns.None? { return None; }
      ok := Eat(KEYWORD, "FROM");
      if !ok { return None; }
      var table := currentToken.value;
      ok := Eat(IDENTIFIER, "");
      if !ok { return None; }
      var conditions: seq<QueryCondition> := [];
      ghost var before := St();
      if currentToken.value == "WHERE" {
        var cs := ParseQueryConditionsFromSelectQuery();
        if cs.None? { return None; }
        conditions := cs.value;
      } else {
        NoWhere(Src(), St());
      }
      ok := Eat(SYMBOL, ";");
      return if ok then Some(SelectQuery(table, columns.value, conditions)) else None;
    }

    /** ParseInsertIntoTable. Where the code would append empty values for ever, Diverges. */
    method ParseInsertIntoTable() returns (r: Outcome<InsertInto>)
      requires Valid() && St() == Advance(Src(), 0)
      modifies this, tokeniser
      ensures r == ParseInsert(Src())
    {
      hide Consume;
      var ok := Eat(KEYWORD, "INSERT");
      if !ok { return SyntaxError; }
      ok := Eat(KEYWORD, "INTO");
      if !ok { return SyntaxError; }
      var table := currentToken.value;
      ok := Eat(IDENTIFIER, "");
      if !ok { return SyntaxError; }
      ok := Eat(KEYWORD, "VALUES");
      if !ok { return SyntaxError; }
      ok := Eat(SYMBOL, "(");
      if !ok { return SyntaxError; }
      var values := ParseValues();
      if !values.Accepted? { return if values.Diverges? then Diverges else SyntaxError; }
      ok := Eat(SYMBOL, ")");
      return if ok then Accepted(InsertInto(table, values.value)) else SyntaxError;
    }

    /** The value loop of ParseInsertIntoTable. */
    method ParseValues() returns (r: Outcome<seq<string>>)
      requires Valid()
      modifies this, tokeniser
      ensures Valid()
      ensures match InsertValues(Src(), old(St()), [])
              case Accepted(p) => r == Accepted(p.value) && St() == p.state
              case SyntaxError => r == SyntaxError
              case Diverges => r == Diverges
    {
      var values: seq<string> := [];
      ghost var whole := InsertValues(Src(), St(), []);
      while currentToken.value != ")"
        invariant Valid() && whole == InsertValues(Src(), St(), values)
        decreases Measure(Src(), St())
      {
        ghost var before := St();
        if currentToken.value == "," {
          var _ := Eat(SYMBOL, ",");
        }
        assert St() == SkipComma(Src(), before);
        if currentToken == STUCK { return Diverges; }
        var value := currentToken.value;
        ghost var at := St();
        var ok := Eat(IDENTIFIER, "");
        if !ok { return SyntaxError; }
        ConsumeMeasure(Src(), at, IDENTIFIER, "");
        values := values + [value];
      }
      return Accepted(values);
    }

    method ParsePrimaryKeyColumn() returns (pk: Option<string>)
      requires Valid()
      modifies this, tokeniser
      ensures Valid()
      ensures var r := PrimaryKeyColumn(Src(), old(St()));
              pk.Some? == r.Some? && (r.Some? ==> pk.value == r.value.value && St() == r.value.state)
    {
      hide Consume, Measure;
      var ok := Eat(KEYWORD, "PRIMARY");
      if !ok { return None; }
      ok := Eat(KEYWORD, "KEY");
      if !ok { return None; }
      ok := Eat(SYMBOL, "(");
      if !ok { return None; }
      var name := currentToken.value;
      ok := Eat(IDENTIFIER, "");
      if !ok { return None; }
      ok := Eat(SYMBOL, ")");
      return if ok then Some(name) else None;
    }

    method ParseColumn() returns (c: Option<ColumnDef>)
      requires Valid()
      modifies this, tokeniser
      ensures Valid()
      ensures var r := OneColumn(Src(), old(St()));
              c.Some? == r.Some? && (r.Some? ==> c.value == r.value.value && St() == r.value.state)
    {
      hide Consume, Measure;
      var name := currentToken.value;
      var ok := Eat(IDENTIFIER, "");
      if !ok { return None; }
      var kind := ColumnTypeOf(currentToken.value);
      ok := Eat(IDENTIFIER, "");
      if !ok || kind.None? { return None; }
      return Some(ColumnDef(name, kind.value));
    }

    /** The column loop of ParseCreateTable: every turn consumes something or fails. */
    method ParseColumns() returns (r: Option<Columns>)
      requires Valid()
      modifies this, tokeniser
      ensures Valid()
      ensures var c := CreateColumns(Src(), old(St()), Columns([], ""));
              r.Some? == c.Some? && (c.Some? ==> r.value == c.value.value && St() == c.value.state)
    {
      hide Consume, Measure, PrimaryKeyColumn, OneColumn;
      var columns := Columns([], "");
      ghost var whole := CreateColumns(Src(), St(), columns);
      while currentToken.value != ")"
        invariant Valid() && whole == CreateColumns(Src(), St(), columns)
        decreases Measure(Src(), St())
      {
        ghost var before := St();
        if currentToken.value == "," {
          var _ := Eat(SYMBOL, ",");
        }
        assert St() == SkipComma(Src(), before);
        if currentToken.value == "PRIMARY" {
          var pk := ParsePrimaryKeyColumn();
          if pk.None? { return None; }
          columns := columns.(pk := pk.value);
        } else {
          var c := ParseColumn();
          if c.None? { return None; }
          columns := columns.(defs := columns.defs + [c.value]);
        }
      }
      return Some(columns);
    }

    /** ParseCreateTable, on every input. */
    method ParseCreateTable() returns (r: Option<CreateTable>)
      requires Valid() && St() == Advance(Src(), 0)
      modifies this, tokeniser
      ensures r == ParseCreate(Src())
    {
      hide Consume, CreateColumns;
      var ok := Eat(KEYWORD, "CREATE");
      if !ok { return None; }
      ok := Eat(KEYWORD, "TABLE");
      if !ok { return None; }
      var table := currentToken.value;
      ok := Eat(IDENTIFIER, "");
      if !ok { return None; }
      ok := Eat(SYMBOL, "(");
      if !ok { return None; }
      var columns := ParseColumns();
      if columns.None? || |columns.value.defs| == 0 { return None; }
      var position := 0;
      if columns.value.pk != "" {
        var name := columns.value.pk;
        var p := FindLast(columns.value.defs, (d: ColumnDef) => d.name == name);
        if p == -1 { return None; }
        position := p;
      }
      ok := Eat(SYMBOL, ")");
      return if ok then Some(CreateTable(table, columns.value.defs, position)) else None;
    }
  }

  lemma NoWhere(s: Source, st: State)
    requires st.pos <= |s.input| && st.cur.value != "WHERE"
    ensures WhereClause(s, st) == Some(Parsed([], st))
  {
  }
}
