/** The statements the parser accepts: exactly the texts that spell one, in any layout. */
module Grammar {
  import opened Bytes
  import opened Tokenisers
  import opened Parsers

  function Keyword(s: string): Token { Token(KEYWORD, s) }
  function Symbol(s: string): Token { Token(SYMBOL, s) }
  function Name(s: string): Token { Token(IDENTIFIER, s) }

  /* ---------- Sentences ---------- */

  /** A comma, or none. */
  function Comma(there: bool): seq<Token> {
    if there then [Symbol(",")] else []
  }

  /** The tokens of the items, with a comma in front of those that have one. */
  function Listed<T>(f: T -> seq<Token>, items: seq<T>, commas: seq<bool>): seq<Token>
    requires |commas| == |items|
  {
    if items == [] then [] else Comma(commas[0]) + (f(items[0]) + Listed(f, items[1..], commas[1..]))
  }

  function ColumnTokens(c: string): seq<Token> {
    if c == "*" then [Symbol("*")] else [Name(c)]
  }

  function ConditionTokens(c: QueryCondition): seq<Token> {
    [Name(c.column), Token(CONDITIONAL_OPERATOR, c.op), Name(c.value)]
  }

  /** The conditions, with AND in front of each but the first. */
  function AndTokens(cs: seq<QueryCondition>, first: bool): seq<Token> {
    if cs == [] then [] else (if first then [] else [Keyword("AND")]) + (ConditionTokens(cs[0]) + AndTokens(cs[1..], false))
  }

  function WhereTokens(cs: seq<QueryCondition>): seq<Token> {
    if cs == [] then [] else [Keyword("WHERE")] + AndTokens(cs, true)
  }

  function SelectTokens(q: SelectQuery, commas: seq<bool>): seq<Token>
    requires |commas| == |q.columns|
  {
    [Keyword("SELECT")] + (Listed(ColumnTokens, q.columns, commas)
    + ([Keyword("FROM"), Name(q.table)] + (WhereTokens(q.conditions) + [Symbol(";")])))
  }

  function ValueTokens(v: string): seq<Token> {
    [Name(v)]
  }

  function InsertStart(table: string): seq<Token> {
    [Keyword("INSERT"), Keyword("INTO"), Name(table), Keyword("VALUES"), Symbol("(")]
  }

  function InsertTokens(q: InsertInto, commas: seq<bool>): seq<Token>
    requires |commas| == |q.values|
  {
    InsertStart(q.table) + (Listed(ValueTokens, q.values, commas) + [Symbol(")")])
  }

  /** What stands between the brackets of CREATE TABLE. */
  datatype Item = Column(def: ColumnDef) | Key(name: string)

  function TypeName(kind: ColumnType): string {
    match kind
    case INT => "INT"
    case STRING => "STRING"
    case BOOL => "BOOL"
  }

  function ItemTokens(x: Item): seq<Token> {
    match x
    case Column(d) => [Name(d.name), Name(TypeName(d.kind))]
    case Key(name) => [Keyword("PRIMARY"), Keyword("KEY"), Symbol("("), Name(name), Symbol(")")]
  }

  function CreateStart(table: string): seq<Token> {
    [Keyword("CREATE"), Keyword("TABLE"), Name(table), Symbol("(")]
  }

  function CreateTokens(table: string, items: seq<Item>, commas: seq<bool>): seq<Token>
    requires |commas| == |items|
  {
    CreateStart(table) + (Listed(ItemTokens, items, commas) + [Symbol(")")])
  }

  /** The columns among the items, in order. */
  function Defs(items: seq<Item>): seq<ColumnDef> {
    if items == [] then [] else (if items[0].Column? then [items[0].def] else []) + Defs(items[1..])
  }

  /** Without a PRIMARY KEY clause the key is the first column; else the last clause counts, and the
      last column of its name. */
  ghost predicate KeyIs(items: seq<Item>, defs: seq<ColumnDef>, p: nat) {
    && ((forall x <- items :: x.Column?) ==> p == 0)
    && forall i :: 0 <= i < |items| && items[i].Key? && (forall j :: i < j < |items| ==> items[j].Column?) ==>
         p < |defs| && defs[p].name == items[i].name && forall j :: p < j < |defs| ==> defs[j].name != items[i].name
  }

  /** The text begins with ts, in some layout. */
  ghost predicate Begins(s: Source, ts: seq<Token>) {
    ts != [] && exists end: nat :: Spelled(s.u, s.input, ts, end)
  }

  /* ---------- Reading tokens ---------- */

  function Tok(s: Source, pos: nat): Token
    requires pos <= |s.input|
  {
    Advance(s, pos).cur
  }

  function Next(s: Source, pos: nat): (n: nat)
    requires pos <= |s.input|
    ensures n <= |s.input|
  {
    Advance(s, pos).pos
  }

  ghost predicate Reads(s: Source, pos: nat, ts: seq<Token>, end: nat) {
    pos <= |s.input| && end <= |s.input| && LexesTo(s.u, s.input, pos, ts, end)
  }

  lemma ReadsNothing(s: Source, pos: nat, end: nat)
    ensures Reads(s, pos, [], end) <==> pos == end <= |s.input|
  {
  }

  lemma ReadsCons(s: Source, pos: nat, t: Token, ts: seq<Token>, end: nat)
    ensures Reads(s, pos, [t] + ts, end) <==> pos <= |s.input| && Tok(s, pos) == t && Reads(s, Next(s, pos), ts, end)
  {
    assert ([t] + ts)[1..] == ts;
  }

  lemma ReadsOne(s: Source, pos: nat)
    requires pos <= |s.input|
    ensures Reads(s, pos, [Tok(s, pos)], Next(s, pos))
  {
    assert [Tok(s, pos)] == [Tok(s, pos)] + [];
    ReadsCons(s, pos, Tok(s, pos), [], Next(s, pos));
  }

  lemma Reads2(s: Source, pos: nat, a: Token, b: Token, end: nat)
    requires pos <= |s.input|
    ensures Reads(s, pos, [a, b], end) <==> Tok(s, pos) == a && Tok(s, Next(s, pos)) == b && end == Next(s, Next(s, pos))
  {
    hide Reads, Tok, Next;
    assert [a, b] == [a] + ([b] + []);
    ReadsCons(s, pos, a, [b] + [], end);
    ReadsCons(s, Next(s, pos), b, [], end);
    ReadsNothing(s, Next(s, Next(s, pos)), end);
  }

  lemma Reads3(s: Source, pos: nat, a: Token, b: Token, c: Token, end: nat)
    requires pos <= |s.input|
    ensures Reads(s, pos, [a, b, c], end) <==>
              var p := Next(s, pos);
              Tok(s, pos) == a && Tok(s, p) == b && Tok(s, Next(s, p)) == c && end == Next(s, Next(s, p))
  {
    hide Reads, Tok, Next;
    assert [a, b, c] == [a] + [b, c];
    ReadsCons(s, pos, a, [b, c], end);
    Reads2(s, Next(s, pos), b, c, end);
  }

  lemma Reads4(s: Source, pos: nat, a: Token, b: Token, c: Token, d: Token, end: nat)
    requires pos <= |s.input|
    ensures Reads(s, pos, [a, b, c, d], end) <==> Tok(s, pos) == a && Reads(s, Next(s, pos), [b, c, d], end)
  {
    assert [a, b, c, d] == [a] + [b, c, d];
    ReadsCons(s, pos, a, [b, c, d], end);
  }

  lemma Reads5(s: Source, pos: nat, a: Token, b: Token, c: Token, d: Token, e: Token, end: nat)
    requires pos <= |s.input|
    ensures Reads(s, pos, [a, b, c, d, e], end) <==>
              Tok(s, pos) == a && Tok(s, Next(s, pos)) == b && Reads(s, Next(s, Next(s, pos)), [c, d, e], end)
  {
    assert [a, b, c, d, e] == [a] + [b, c, d, e];
    ReadsCons(s, pos, a, [b, c, d, e], end);
    Reads4(s, Next(s, pos), b, c, d, e, end);
  }

  lemma {:induction false} ReadsJoin(s: Source, pos: nat, a: seq<Token>, mid: nat, b: seq<Token>, end: nat)
    requires Reads(s, pos, a, mid) && Reads(s, mid, b, end)
    ensures Reads(s, pos, a + b, end)
    decreases |a|
  {
    if a == [] {
      assert a + b == b;
    } else {
      assert (a + b)[1..] == a[1..] + b;
      ReadsJoin(s, Next(s, pos), a[1..], mid, b, end);
    }
  }

  lemma {:induction false} ReadsSplit(s: Source, pos: nat, a: seq<Token>, b: seq<Token>, end: nat) returns (mid: nat)
    requires Reads(s, pos, a + b, end)
    ensures Reads(s, pos, a, mid) && Reads(s, mid, b, end)
    decreases |a|
  {
    if a == [] {
      assert a + b == b;
      mid := pos;
    } else {
      assert (a + b)[1..] == a[1..] + b;
      mid := ReadsSplit(s, Next(s, pos), a[1..], b, end);
    }
  }

  /** A text that begins with ts is one the tokeniser reads ts from. */
  lemma BeginsExactly(s: Source, ts: seq<Token>)
    requires Sane(s.u) && ts != [] && ts[|ts| - 1].value != ""
    ensures Begins(s, ts) <==> exists end: nat :: Reads(s, 0, ts, end)
  {
    hide Sane, Spelled, LexesTo;
    if end: nat :| Spelled(s.u, s.input, ts, end) {
      ReadExactly(s.u, s.input, ts, end);
      assert end <= |s.input| by { SpelledEnds(s.u, s.input, ts, end); }
      assert Reads(s, 0, ts, end);
    }
    if end: nat :| Reads(s, 0, ts, end) {
      ReadExactly(s.u, s.input, ts, end);
    }
  }

  lemma SpelledEnds(u: Unicode, input: string, ts: seq<Token>, end: nat)
    requires ts != [] && Spelled(u, input, ts, end)
    ensures end <= |input|
  {
  }

  /** An identifier is no reserved word and no symbol, and only a symbol is written as one. */
  lemma TokIs(s: Source, pos: nat)
    requires pos <= |s.input|
    ensures Tok(s, pos).value in {"(", ")", ",", ";", "*"} ==> Tok(s, pos).kind == SYMBOL
    ensures Sane(s.u) && Tok(s, pos).kind == IDENTIFIER ==> Tok(s, pos).value !in {"FROM", "WHERE", "PRIMARY"}
  {
    hide IsKeyword, IsReserved;
    var t := Tok(s, pos);
    LexIsToken(s.u, s.input, pos);
    if t.value in {"(", ")", ",", ";", "*"} {
      OneCharacter(t.value[0]);
      assert t.value == [t.value[0]];
      assert t.value[0] in {'(', ')', ',', ';', '*'};
    }
    ReservedIs(s.u, t.value);
    KeywordsAre();
  }

  lemma KeywordsAre()
    ensures forall w | w in {"CREATE", "TABLE", "PRIMARY", "KEY", "INSERT", "INTO", "VALUES", "SELECT", "FROM", "WHERE", "AND"} :: IsKeyword(w)
  {
  }

  /* ---------- One turn of a list ---------- */

  /** The position behind a comma, if one is next. */
  function Past(s: Source, pos: nat): (p: nat)
    requires pos <= |s.input|
    ensures p <= |s.input|
  {
    if Tok(s, pos).value == "," then Next(s, pos) else pos
  }

  lemma PastIs(s: Source, pos: nat)
    requires pos <= |s.input|
    ensures SkipComma(s, Advance(s, pos)) == Advance(s, Past(s, pos))
    ensures Tok(s, pos).value == "," ==> Tok(s, pos) == Symbol(",") && Consume(s, Advance(s, pos), SYMBOL, ",") == Some(Advance(s, Past(s, pos)))
  {
    hide Lex;
    TokIs(s, pos);
  }

  /** What is left of a list behind one item, seen from the front and from behind. */
  lemma TakeItem(s: Source, pos: nat, comma: bool, item: seq<Token>, more: seq<Token>, end: nat) returns (mid: nat)
    requires Reads(s, pos, Comma(comma) + (item + more), end) && item != [] && item[0].value != ","
    ensures comma == (Tok(s, pos).value == ",") && Reads(s, Past(s, pos), item, mid) && Reads(s, mid, more, end)
    ensures Tok(s, Past(s, pos)) == item[0] && (!comma ==> Tok(s, pos) == item[0])
  {
    hide LexesTo, Advance;
    var p := ReadsSplit(s, pos, Comma(comma), item + more, end);
    if comma {
      assert Comma(comma) == [Symbol(",")] + [];
      ReadsCons(s, pos, Symbol(","), [], p);
      ReadsNothing(s, Next(s, pos), p);
    } else {
      ReadsNothing(s, pos, p);
    }
    mid := ReadsSplit(s, p, item, more, end);
    assert item == [item[0]] + item[1..];
    ReadsCons(s, p, item[0], item[1..], mid);
  }

  lemma PutItem(s: Source, pos: nat, item: seq<Token>, mid: nat, more: seq<Token>, end: nat)
    requires pos <= |s.input| && Reads(s, Past(s, pos), item, mid) && Reads(s, mid, more, end)
    ensures Reads(s, pos, Comma(Tok(s, pos).value == ",") + (item + more), end)
  {
    hide LexesTo, Advance;
    var comma := Tok(s, pos).value == ",";
    PastIs(s, pos);
    ReadsJoin(s, Past(s, pos), item, mid, more, end);
    if comma {
      ReadsCons(s, pos, Symbol(","), item + more, end);
    } else {
      assert Comma(comma) + (item + more) == item + more;
    }
  }

  lemma ListedCons<T>(f: T -> seq<Token>, x: T, items: seq<T>, comma: bool, commas: seq<bool>)
    requires |commas| == |items|
    ensures Listed(f, [x] + items, [comma] + commas) == Comma(comma) + (f(x) + Listed(f, items, commas))
  {
    assert ([x] + items)[1..] == items && ([comma] + commas)[1..] == commas;
  }

  /* ---------- SELECT ---------- */

  lemma {:induction false} ColumnsWritten(s: Source, pos: nat, i: nat, acc: seq<string>)
      returns (columns: seq<string>, commas: seq<bool>, end: nat)
    requires pos <= |s.input| && i <= COLUMN_LIMIT && SelectColumns(s, Advance(s, pos), i, acc).Some?
    ensures |commas| == |columns| && i + |columns| <= COLUMN_LIMIT && Reads(s, pos, Listed(ColumnTokens, columns, commas), end)
    ensures SelectColumns(s, Advance(s, pos), i, acc) == Some(Parsed(acc + columns, Advance(s, end)))
    ensures Tok(s, end).value == "FROM"
    decreases COLUMN_LIMIT - i
  {
    hide Lex, LexesTo, Listed;
    if Tok(s, pos).value == "FROM" {
      columns, commas, end := [], [], pos;
      ListedNothing(ColumnTokens);
      ReadsNothing(s, pos, pos);
      assert acc + [] == acc;
    } else {
      PastIs(s, pos);
      var p := Past(s, pos);
      var c := Tok(s, p).value;
      var cs, bs;
      cs, bs, end := ColumnsWritten(s, Next(s, p), i + 1, acc + [c]);
      columns, commas := [c] + cs, [Tok(s, pos).value == ","] + bs;
      assert acc + columns == acc + [c] + cs;
      assert Tok(s, p) == if c == "*" then Symbol(c) else Name(c);
      ReadsOne(s, p);
      PutItem(s, pos, ColumnTokens(c), Next(s, p), Listed(ColumnTokens, cs, bs), end);
      ListedCons(ColumnTokens, c, cs, Tok(s, pos).value == ",", bs);
    }
  }

  lemma {:induction false} ColumnsRead(s: Source, pos: nat, i: nat, acc: seq<string>, columns: seq<string>, commas: seq<bool>, end: nat)
    requires Sane(s.u) && |commas| == |columns| && i + |columns| <= COLUMN_LIMIT && (forall c <- columns :: c != ",")
    requires Reads(s, pos, Listed(ColumnTokens, columns, commas), end) && Tok(s, end).value == "FROM"
    ensures SelectColumns(s, Advance(s, pos), i, acc) == Some(Parsed(acc + columns, Advance(s, end)))
    decreases |columns|
  {
    hide Sane, Lex, LexesTo, Listed;
    if columns == [] {
      ListedNothing(ColumnTokens);
      ReadsNothing(s, pos, end);
      assert acc + [] == acc;
    } else {
      var c, more := columns[0], Listed(ColumnTokens, columns[1..], commas[1..]);
      ListedCons(ColumnTokens, c, columns[1..], commas[0], commas[1..]);
      assert [c] + columns[1..] == columns && [commas[0]] + commas[1..] == commas && c in columns;
      forall x | x in columns[1..] ensures x in columns {}
      var mid := TakeItem(s, pos, commas[0], ColumnTokens(c), more, end);
      var p := Past(s, pos);
      assert ColumnTokens(c) == [Tok(s, p)] + [];
      ReadsCons(s, p, Tok(s, p), [], mid);
      ReadsNothing(s, Next(s, p), mid);
      PastIs(s, pos);
      TokIs(s, pos);
      assert Tok(s, pos).value != "FROM";
      ColumnsRead(s, mid, i + 1, acc + [c], columns[1..], commas[1..], end);
      assert acc + [c] + columns[1..] == acc + columns;
    }
  }

  lemma ListedNothing<T>(f: T -> seq<Token>)
    ensures Listed(f, [], []) == []
  {
  }

  /** One condition is three tokens. */
  lemma ConditionExactly(s: Source, pos: nat) returns (end: nat)
    requires pos <= |s.input|
    ensures end <= |s.input|
    ensures OneCondition(s, Advance(s, pos)).Some? ==>
              var r := OneCondition(s, Advance(s, pos)).value;
              r.state == Advance(s, end) && Reads(s, pos, ConditionTokens(r.value), end)
    ensures forall c, e :: Reads(s, pos, ConditionTokens(c), e) ==>
              e == end && OneCondition(s, Advance(s, pos)) == Some(Parsed(c, Advance(s, end)))
  {
    hide Lex, Reads;
    end := Next(s, Next(s, Next(s, pos)));
    forall c, e ensures Reads(s, pos, ConditionTokens(c), e) <==>
                          && e == end && Tok(s, pos) == Name(c.column) && Tok(s, Next(s, pos)) == Token(CONDITIONAL_OPERATOR, c.op)
                          && Tok(s, Next(s, Next(s, pos))) == Name(c.value)
    {
      Reads3(s, pos, Name(c.column), Token(CONDITIONAL_OPERATOR, c.op), Name(c.value), e);
    }
  }

  /** The tokens in front of a condition: AND, but for the first. */
  function And(first: bool): seq<Token> {
    if first then [] else [Keyword("AND")]
  }

  lemma ReadsAnd(s: Source, pos: nat, first: bool, mid: nat)
    requires pos <= |s.input|
    ensures Reads(s, pos, And(first), mid) <==> if first then mid == pos else Tok(s, pos) == Keyword("AND") && mid == Next(s, pos)
  {
    assert [Keyword("AND")] == [Keyword("AND")] + [];
    ReadsCons(s, pos, Keyword("AND"), [], mid);
    ReadsNothing(s, Next(s, pos), mid);
    ReadsNothing(s, pos, mid);
  }

  lemma AndCons(c: QueryCondition, cs: seq<QueryCondition>, first: bool)
    ensures AndTokens([c] + cs, first) == And(first) + (ConditionTokens(c) + AndTokens(cs, false))
  {
    assert ([c] + cs)[1..] == cs;
  }

  lemma {:induction false} ConditionsWritten(s: Source, pos: nat, i: nat, acc: seq<QueryCondition>)
      returns (cs: seq<QueryCondition>, end: nat)
    requires pos <= |s.input| && i <= CONDITION_LIMIT && SelectConditions(s, Advance(s, pos), i, acc).Some?
    ensures i + |cs| <= CONDITION_LIMIT && Reads(s, pos, AndTokens(cs, i == 0), end)
    ensures SelectConditions(s, Advance(s, pos), i, acc) == Some(Parsed(acc + cs, Advance(s, end)))
    ensures Tok(s, end).value == ";"
    decreases CONDITION_LIMIT - i
  {
    hide Lex, LexesTo, OneCondition, AndTokens;
    if Tok(s, pos).value == ";" {
      cs, end := [], pos;
      ReadsNothing(s, pos, pos);
      AndNothing(i == 0);
      assert acc + [] == acc;
    } else {
      var p := if i > 0 then Next(s, pos) else pos;
      var mid := ConditionExactly(s, p);
      var c := OneCondition(s, Advance(s, p)).value.value;
      ReadsAnd(s, pos, i == 0, p);
      var more;
      more, end := ConditionsWritten(s, mid, i + 1, acc + [c]);
      cs := [c] + more;
      assert acc + cs == acc + [c] + more;
      ReadsJoin(s, p, ConditionTokens(c), mid, AndTokens(more, false), end);
      ReadsJoin(s, pos, And(i == 0), p, ConditionTokens(c) + AndTokens(more, false), end);
      AndCons(c, more, i == 0);
    }
  }

  lemma AndNothing(first: bool)
    ensures AndTokens([], first) == []
  {
  }

  lemma {:induction false} ConditionsRead(s: Source, pos: nat, i: nat, acc: seq<QueryCondition>, cs: seq<QueryCondition>, end: nat)
    requires i + |cs| <= CONDITION_LIMIT && Reads(s, pos, AndTokens(cs, i == 0), end) && Tok(s, end).value == ";"
    ensures SelectConditions(s, Advance(s, pos), i, acc) == Some(Parsed(acc + cs, Advance(s, end)))
    decreases |cs|
  {
    hide Lex, LexesTo, OneCondition, AndTokens;
    if cs == [] {
      AndNothing(i == 0);
      ReadsNothing(s, pos, end);
      assert acc + [] == acc;
    } else {
      var c, more := cs[0], AndTokens(cs[1..], false);
      AndCons(c, cs[1..], i == 0);
      assert [c] + cs[1..] == cs;
      var p := ReadsSplit(s, pos, And(i == 0), ConditionTokens(c) + more, end);
      ReadsAnd(s, pos, i == 0, p);
      var mid := ReadsSplit(s, p, ConditionTokens(c), more, end);
      var mid' := ConditionExactly(s, p);
      ConditionStarts(s, p, c, mid);
      ConditionsRead(s, mid, i + 1, acc + [c], cs[1..], end);
      assert acc + [c] + cs[1..] == acc + cs;
    }
  }

  lemma ConditionStarts(s: Source, pos: nat, c: QueryCondition, end: nat)
    requires Reads(s, pos, ConditionTokens(c), end)
    ensures Tok(s, pos).value != ";"
  {
    TokIs(s, pos);
  }

  /** Behind the table name: a WHERE clause or nothing, and the semicolon. */
  lemma WhereWritten(s: Source, pos: nat) returns (cs: seq<QueryCondition>, end: nat)
    requires pos <= |s.input| && WhereClause(s, Advance(s, pos)).Some?
    requires Consume(s, WhereClause(s, Advance(s, pos)).value.state, SYMBOL, ";").Some?
    ensures |cs| <= CONDITION_LIMIT && Reads(s, pos, WhereTokens(cs) + [Symbol(";")], end)
    ensures WhereClause(s, Advance(s, pos)).value.value == cs
  {
    hide Lex, LexesTo, SelectConditions, AndTokens;
    var mid := pos;
    if Tok(s, pos).value == "WHERE" {
      cs, mid := ConditionsWritten(s, Next(s, pos), 0, []);
      assert [] + cs == cs;
      ReadsCons(s, pos, Keyword("WHERE"), AndTokens(cs, true), mid);
    } else {
      cs := [];
      ReadsNothing(s, pos, pos);
    }
    end := Next(s, mid);
    ReadsCons(s, mid, Symbol(";"), [], end);
    ReadsNothing(s, end, end);
    assert [Symbol(";")] + [] == [Symbol(";")];
    ReadsJoin(s, pos, WhereTokens(cs), mid, [Symbol(";")], end);
  }

  lemma WhereRead(s: Source, pos: nat, cs: seq<QueryCondition>, end: nat)
    requires |cs| <= CONDITION_LIMIT && Reads(s, pos, WhereTokens(cs) + [Symbol(";")], end)
    ensures var r := WhereClause(s, Advance(s, pos));
            r.Some? && r.value.value == cs && Consume(s, r.value.state, SYMBOL, ";").Some?
  {
    hide Lex, LexesTo, SelectConditions, AndTokens;
    var mid := ReadsSplit(s, pos, WhereTokens(cs), [Symbol(";")], end);
    assert [Symbol(";")] + [] == [Symbol(";")];
    ReadsCons(s, mid, Symbol(";"), [], end);
    if cs == [] {
      ReadsNothing(s, pos, mid);
    } else {
      ReadsCons(s, pos, Keyword("WHERE"), AndTokens(cs, true), mid);
      ConditionsRead(s, Next(s, pos), 0, [], cs, mid);
      assert [] + cs == cs;
    }
  }

  lemma FromExactly(s: Source, pos: nat, table: string, more: seq<Token>, end: nat)
    requires pos <= |s.input|
    ensures Reads(s, pos, [Keyword("FROM"), Name(table)] + more, end) <==>
              Tok(s, pos) == Keyword("FROM") && Tok(s, Next(s, pos)) == Name(table) && Reads(s, Next(s, Next(s, pos)), more, end)
  {
    assert [Keyword("FROM"), Name(table)] + more == [Keyword("FROM")] + ([Name(table)] + more);
    ReadsCons(s, pos, Keyword("FROM"), [Name(table)] + more, end);
    ReadsCons(s, Next(s, pos), Name(table), more, end);
  }

  /** One to ten columns, at most eleven conditions. */
  predicate Bounded(q: SelectQuery) {
    1 <= |q.columns| <= 10 && |q.conditions| <= 11
  }

  lemma SelectWritten(s: Source) returns (commas: seq<bool>, end: nat)
    requires ParseSelect(s).Some?
    ensures var q := ParseSelect(s).value; Bounded(q) && |commas| == |q.columns| && Reads(s, 0, SelectTokens(q, commas), end)
  {
    hide Lex, LexesTo, SelectColumns, WhereClause, WhereTokens, Listed;
    var q := ParseSelect(s).value;
    var columns, mid;
    columns, commas, mid := ColumnsWritten(s, Next(s, 0), 0, []);
    assert [] + columns == columns;
    var cs;
    cs, end := WhereWritten(s, Next(s, Next(s, mid)));
    var rest := WhereTokens(cs) + [Symbol(";")];
    FromExactly(s, mid, q.table, rest, end);
    ReadsJoin(s, Next(s, 0), Listed(ColumnTokens, columns, commas), mid, [Keyword("FROM"), Name(q.table)] + rest, end);
    ReadsCons(s, 0, Keyword("SELECT"), Listed(ColumnTokens, columns, commas) + ([Keyword("FROM"), Name(q.table)] + rest), end);
  }

  lemma SelectRead(s: Source, q: SelectQuery, commas: seq<bool>, end: nat)
    requires Sane(s.u) && Bounded(q) && |commas| == |q.columns| && (forall c <- q.columns :: c != ",")
    requires Reads(s, 0, SelectTokens(q, commas), end)
    ensures ParseSelect(s) == Some(q)
  {
    hide Lex, LexesTo, SelectColumns, WhereClause, WhereTokens, Listed, Sane;
    var columns, rest := Listed(ColumnTokens, q.columns, commas), WhereTokens(q.conditions) + [Symbol(";")];
    ReadsCons(s, 0, Keyword("SELECT"), columns + ([Keyword("FROM"), Name(q.table)] + rest), end);
    var mid := ReadsSplit(s, Next(s, 0), columns, [Keyword("FROM"), Name(q.table)] + rest, end);
    FromExactly(s, mid, q.table, rest, end);
    ColumnsRead(s, Next(s, 0), 0, [], q.columns, commas, mid);
    assert [] + q.columns == q.columns;
    WhereRead(s, Next(s, Next(s, mid)), q.conditions, end);
  }

  lemma {:induction false} ListedGood<T>(u: Unicode, f: T -> seq<Token>, items: seq<T>, commas: seq<bool>)
    requires |commas| == |items|
    ensures AllGood(u, Listed(f, items, commas)) <==> forall x <- items :: AllGood(u, f(x))
    decreases |items|
  {
    hide GoodToken;
    if items != [] {
      ListedGood(u, f, items[1..], commas[1..]);
      assert items == [items[0]] + items[1..];
      GoodComma(u, commas[0]);
      GoodJoin(u, f(items[0]), Listed(f, items[1..], commas[1..]));
      GoodJoin(u, Comma(commas[0]), f(items[0]) + Listed(f, items[1..], commas[1..]));
    }
  }

  lemma GoodComma(u: Unicode, comma: bool)
    ensures AllGood(u, Comma(comma))
  {
  }

  lemma GoodJoin(u: Unicode, a: seq<Token>, b: seq<Token>)
    ensures AllGood(u, a + b) <==> AllGood(u, a) && AllGood(u, b)
  {
    forall t | t in a || t in b ensures t in a + b {}
  }

  /** SELECT is accepted exactly if the text begins with a statement of one to ten columns and at most
      eleven conditions, up to its semicolon, in any layout, with or without commas between columns. */
  lemma SelectExactly(s: Source, q: SelectQuery)
    requires Sane(s.u)
    ensures ParseSelect(s) == Some(q) <==>
              Bounded(q) && exists commas: seq<bool> | |commas| == |q.columns| :: Begins(s, SelectTokens(q, commas))
  {
    hide Sane, LexesTo, ParseSelect, Begins, SelectTokens, Reads, Bounded;
    forall commas: seq<bool> | |commas| == |q.columns|
      ensures Begins(s, SelectTokens(q, commas)) <==> exists end: nat :: Reads(s, 0, SelectTokens(q, commas), end)
    {
      SelectEnds(q, commas);
      BeginsExactly(s, SelectTokens(q, commas));
    }
    if ParseSelect(s) == Some(q) {
      var commas, end := SelectWritten(s);
    }
    if commas: seq<bool>, end: nat :| Bounded(q) && |commas| == |q.columns| && Reads(s, 0, SelectTokens(q, commas), end) {
      SelectNoComma(s, q, commas, end);
      SelectRead(s, q, commas, end);
    }
  }

  lemma SelectEnds(q: SelectQuery, commas: seq<bool>)
    requires |commas| == |q.columns|
    ensures SelectTokens(q, commas) != [] && SelectTokens(q, commas)[|SelectTokens(q, commas)| - 1] == Symbol(";")
  {
  }

  lemma SelectNoComma(s: Source, q: SelectQuery, commas: seq<bool>, end: nat)
    requires Sane(s.u) && |commas| == |q.columns| && Reads(s, 0, SelectTokens(q, commas), end)
    ensures forall c <- q.columns :: c != ","
  {
    hide Sane, GoodToken, LexesTo, WhereTokens, Listed;
    var ts := SelectTokens(q, commas);
    var rest := [Keyword("FROM"), Name(q.table)] + (WhereTokens(q.conditions) + [Symbol(";")]);
    SelectEnds(q, commas);
    ReadIsGood(s.u, s.input, 0, ts, end);
    GoodJoin(s.u, [Keyword("SELECT")], Listed(ColumnTokens, q.columns, commas) + rest);
    GoodJoin(s.u, Listed(ColumnTokens, q.columns, commas), rest);
    ListedGood(s.u, ColumnTokens, q.columns, commas);
    forall c | c in q.columns ensures c != "," {
      assert AllGood(s.u, ColumnTokens(c));
      assert ColumnTokens(c)[0] in ColumnTokens(c);
      NoGoodName(s.u, c);
    }
  }

  lemma NoGoodName(u: Unicode, c: string)
    requires Sane(u)
    ensures c in {",", ")", ";", "*"} ==> !GoodToken(u, Name(c))
  {
    hide IsKeyword;
    assert IsSymbol(',') && IsSymbol(')') && IsSymbol(';') && IsSymbol('*');
    assert c in {",", ")", ";", "*"} ==> |c| == 1 && c[0] in c;
  }

  /* ---------- INSERT ---------- */

  lemma InsertHeadExactly(s: Source) returns (end: nat)
    ensures end <= |s.input|
    ensures InsertHead(s).Some? ==>
              InsertHead(s).value.state == Advance(s, end) && Reads(s, 0, InsertStart(InsertHead(s).value.value), end)
    ensures forall table, e :: Reads(s, 0, InsertStart(table), e) ==> e == end && InsertHead(s) == Some(Parsed(table, Advance(s, end)))
  {
    hide Lex, Reads;
    var p := Next(s, Next(s, 0));
    end := Next(s, Next(s, Next(s, p)));
    forall table, e ensures Reads(s, 0, InsertStart(table), e) <==>
                              && e == end && Tok(s, 0) == Keyword("INSERT") && Tok(s, Next(s, 0)) == Keyword("INTO") && Tok(s, p) == Name(table)
                              && Tok(s, Next(s, p)) == Keyword("VALUES") && Tok(s, Next(s, Next(s, p))) == Symbol("(")
    {
      Reads5(s, 0, Keyword("INSERT"), Keyword("INTO"), Name(table), Keyword("VALUES"), Symbol("("), e);
      Reads3(s, p, Name(table), Keyword("VALUES"), Symbol("("), e);
    }
  }

  /** The value loop has read a list of values; it stops at a bracket, or spins at a stuck tokeniser. */
  lemma {:induction false} ValuesWritten(s: Source, pos: nat, acc: seq<string>)
      returns (values: seq<string>, commas: seq<bool>, end: nat)
    requires pos <= |s.input| && !InsertValues(s, Advance(s, pos), acc).SyntaxError?
    ensures |commas| == |values| && Reads(s, pos, Listed(ValueTokens, values, commas), end)
    ensures forall v <- values :: v != ""
    ensures var r := InsertValues(s, Advance(s, pos), acc);
            && (r.Accepted? ==> r.value == Parsed(acc + values, Advance(s, end)) && Tok(s, end).value == ")")
            && (r.Diverges? ==> Tok(s, end).value != ")" && Tok(s, Past(s, end)) == STUCK)
    decreases Measure(s, Advance(s, pos))
  {
    hide Lex, LexesTo, Listed, Measure, SkipComma;
    var p := Past(s, pos);
    PastIs(s, pos);
    if Tok(s, pos).value == ")" || Tok(s, p) == STUCK {
      values, commas, end := [], [], pos;
      ListedNothing(ValueTokens);
      ReadsNothing(s, pos, pos);
      assert acc + [] == acc;
    } else {
      var v := Tok(s, p).value;
      ValueMeasure(s, pos);
      var vs, bs;
      vs, bs, end := ValuesWritten(s, Next(s, p), acc + [v]);
      values, commas := [v] + vs, [Tok(s, pos).value == ","] + bs;
      assert acc + values == acc + [v] + vs;
      assert Tok(s, p) == Name(v);
      ReadsOne(s, p);
      PutItem(s, pos, ValueTokens(v), Next(s, p), Listed(ValueTokens, vs, bs), end);
      ListedCons(ValueTokens, v, vs, Tok(s, pos).value == ",", bs);
    }
  }

  lemma ValueMeasure(s: Source, pos: nat)
    requires pos <= |s.input| && Tok(s, Past(s, pos)).kind == IDENTIFIER && Tok(s, Past(s, pos)) != STUCK
    ensures Measure(s, Advance(s, Next(s, Past(s, pos)))) < Measure(s, Advance(s, pos))
  {
    hide Lex, Measure;
    PastIs(s, pos);
    ConsumeMeasure(s, Advance(s, Past(s, pos)), IDENTIFIER, "");
  }

  /** Reading a list of values, the loop appends them. */
  lemma {:induction false} ValuesRead(s: Source, pos: nat, acc: seq<string>, values: seq<string>, commas: seq<bool>, end: nat)
    requires |commas| == |values| && (forall v <- values :: v != "," && v != "")
    requires Reads(s, pos, Listed(ValueTokens, values, commas), end)
    ensures InsertValues(s, Advance(s, pos), acc) == InsertValues(s, Advance(s, end), acc + values)
    decreases |values|
  {
    hide Lex, LexesTo, Listed, Measure, SkipComma;
    if values == [] {
      ListedNothing(ValueTokens);
      ReadsNothing(s, pos, end);
      assert acc + [] == acc;
    } else {
      var v, more := values[0], Listed(ValueTokens, values[1..], commas[1..]);
      ListedCons(ValueTokens, v, values[1..], commas[0], commas[1..]);
      assert [v] + values[1..] == values && [commas[0]] + commas[1..] == commas && v in values;
      forall x | x in values[1..] ensures x in values {}
      var mid := TakeItem(s, pos, commas[0], ValueTokens(v), more, end);
      var p := Past(s, pos);
      assert ValueTokens(v) == [Tok(s, p)] + [];
      ReadsCons(s, p, Tok(s, p), [], mid);
      ReadsNothing(s, Next(s, p), mid);
      PastIs(s, pos);
      TokIs(s, pos);
      ValuesRead(s, mid, acc + [v], values[1..], commas[1..], end);
      assert acc + [v] + values[1..] == acc + values;
    }
  }

  lemma InsertEndsIn(q: InsertInto, commas: seq<bool>)
    requires |commas| == |q.values|
    ensures InsertTokens(q, commas) != [] && InsertTokens(q, commas)[|InsertTokens(q, commas)| - 1] == Symbol(")")
  {
  }

  /** A statement read to a last token that holds something has only good values. */
  lemma GoodValues(s: Source, table: string, values: seq<string>, commas: seq<bool>, last: seq<Token>, end: nat)
    requires Sane(s.u) && |commas| == |values| && AllGood(s.u, InsertStart(table) + (Listed(ValueTokens, values, commas) + last))
    ensures forall v <- values :: v != "," && v != ""
  {
    hide Sane, GoodToken, Listed;
    GoodJoin(s.u, InsertStart(table), Listed(ValueTokens, values, commas) + last);
    GoodJoin(s.u, Listed(ValueTokens, values, commas), last);
    ListedGood(s.u, ValueTokens, values, commas);
    forall v | v in values ensures v != "," && v != "" {
      assert AllGood(s.u, ValueTokens(v));
      assert ValueTokens(v)[0] in ValueTokens(v);
      NoGoodName(s.u, v);
      GoodHasValue(s.u, Name(v));
    }
  }

  lemma InsertWritten(s: Source) returns (commas: seq<bool>, end: nat)
    requires ParseInsert(s).Accepted?
    ensures var q := ParseInsert(s).value; |commas| == |q.values| && Reads(s, 0, InsertTokens(q, commas), end)
  {
    hide Lex, LexesTo, InsertHead, InsertValues, InsertStart, Listed;
    var q := ParseInsert(s).value;
    var start := InsertHeadExactly(s);
    var values, mid;
    values, commas, mid := ValuesWritten(s, start, []);
    assert [] + values == values;
    end := Next(s, mid);
    ReadsOne(s, mid);
    ReadsJoin(s, start, Listed(ValueTokens, values, commas), mid, [Symbol(")")], end);
    ReadsJoin(s, 0, InsertStart(q.table), start, Listed(ValueTokens, values, commas) + [Symbol(")")], end);
  }

  lemma InsertRead(s: Source, q: InsertInto, commas: seq<bool>, end: nat)
    requires |commas| == |q.values| && (forall v <- q.values :: v != "," && v != "")
    requires Reads(s, 0, InsertTokens(q, commas), end)
    ensures ParseInsert(s) == Accepted(q)
  {
    hide Lex, LexesTo, InsertHead, InsertStart, Listed;
    var list := Listed(ValueTokens, q.values, commas);
    var start := ReadsSplit(s, 0, InsertStart(q.table), list + [Symbol(")")], end);
    var start' := InsertHeadExactly(s);
    var mid := ReadsSplit(s, start, list, [Symbol(")")], end);
    assert [Symbol(")")] == [Symbol(")")] + [];
    ReadsCons(s, mid, Symbol(")"), [], end);
    ValuesRead(s, start, [], q.values, commas, mid);
    assert [] + q.values == q.values;
  }

  /** INSERT is accepted exactly if the text begins with one, up to its closing bracket, with any number
      of values, in any layout, with or without commas between values. */
  lemma InsertExactly(s: Source, q: InsertInto)
    requires Sane(s.u)
    ensures ParseInsert(s) == Accepted(q) <==> exists commas: seq<bool> | |commas| == |q.values| :: Begins(s, InsertTokens(q, commas))
  {
    hide Sane, LexesTo, ParseInsert, Begins, InsertStart, Listed, AllGood;
    forall commas: seq<bool> | |commas| == |q.values|
      ensures Begins(s, InsertTokens(q, commas)) <==> exists end: nat :: Reads(s, 0, InsertTokens(q, commas), end)
    {
      InsertEndsIn(q, commas);
      BeginsExactly(s, InsertTokens(q, commas));
    }
    if ParseInsert(s) == Accepted(q) {
      var commas, end := InsertWritten(s);
    }
    if commas: seq<bool>, end: nat :| |commas| == |q.values| && Reads(s, 0, InsertTokens(q, commas), end) {
      InsertEndsIn(q, commas);
      ReadIsGood(s.u, s.input, 0, InsertTokens(q, commas), end);
      GoodValues(s, q.table, q.values, commas, [Symbol(")")], end);
      InsertRead(s, q, commas, end);
    }
  }

  /* ---------- When INSERT parsing never ends ---------- */

  /** Behind spaces comes a character no token can start with. */
  ghost predicate StuckAt(s: Source, pos: nat) {
    exists n: nat :: pos <= n < |s.input| && (forall j :: pos <= j < n ==> s.u.isSpace(s.input[j])) && Unsupported(s.u, s.input[n])
  }

  lemma StuckIs(s: Source, pos: nat)
    requires pos <= |s.input|
    ensures Tok(s, pos) == STUCK <==> StuckAt(s, pos)
  {
    hide IsSymbol, IsOperator, IsWord;
    StuckExactly(s.u, s.input, pos);
    if n: nat :| pos <= n < |s.input| && (forall j :: pos <= j < n ==> s.u.isSpace(s.input[j])) && Unsupported(s.u, s.input[n]) {
      ScanStops(s.u.isSpace, s.input, pos, n);
    }
  }

  function OpenInsert(table: string, values: seq<string>, commas: seq<bool>, trailing: bool): (ts: seq<Token>)
    requires |commas| == |values|
    ensures ts != []
  {
    InsertStart(table) + (Listed(ValueTokens, values, commas) + Comma(trailing))
  }

  lemma {:induction false} OpenEnds(table: string, values: seq<string>, commas: seq<bool>, trailing: bool)
    requires |commas| == |values| && forall v <- values :: v != ""
    ensures var ts := OpenInsert(table, values, commas, trailing); ts[|ts| - 1].value != ""
  {
    hide Listed;
    ListEnds(values, commas);
  }

  lemma {:induction false} ListEnds(values: seq<string>, commas: seq<bool>)
    requires |commas| == |values| && forall v <- values :: v != ""
    ensures var ts := Listed(ValueTokens, values, commas); ts != [] ==> ts[|ts| - 1].value != ""
    decreases |values|
  {
    if values != [] {
      assert values[0] in values;
      forall v | v in values[1..] ensures v in values {}
      ListEnds(values[1..], commas[1..]);
    }
  }

  /** The text spells an INSERT that is open after a value, a comma or its bracket, and then comes a
      character no token can start with. */
  ghost predicate SpinsBehind(s: Source, table: string, values: seq<string>, commas: seq<bool>, trailing: bool, end: nat) {
    |commas| == |values| && Spelled(s.u, s.input, OpenInsert(table, values, commas, trailing), end) && StuckAt(s, end)
  }

  lemma SpinsWritten(s: Source) returns (table: string, values: seq<string>, commas: seq<bool>, trailing: bool, end: nat)
    requires Sane(s.u) && ParseInsert(s).Diverges?
    ensures SpinsBehind(s, table, values, commas, trailing, end)
  {
    hide Sane, Lex, LexesTo, InsertHead, InsertValues, InsertStart, Listed, Spelled, StuckAt;
    table := InsertHead(s).value.value;
    var start := InsertHeadExactly(s);
    var mid;
    values, commas, mid := ValuesWritten(s, start, []);
    trailing, end := Tok(s, mid).value == ",", Past(s, mid);
    PastIs(s, mid);
    if trailing { ReadsOne(s, mid); } else { ReadsNothing(s, mid, end); }
    ReadsJoin(s, start, Listed(ValueTokens, values, commas), mid, Comma(trailing), end);
    ReadsJoin(s, 0, InsertStart(table), start, Listed(ValueTokens, values, commas) + Comma(trailing), end);
    OpenEnds(table, values, commas, trailing);
    ReadExactly(s.u, s.input, OpenInsert(table, values, commas, trailing), end);
    StuckIs(s, end);
  }

  lemma SpinsRead(s: Source, table: string, values: seq<string>, commas: seq<bool>, trailing: bool, end: nat)
    requires Sane(s.u) && SpinsBehind(s, table, values, commas, trailing, end)
    ensures ParseInsert(s).Diverges?
  {
    hide Sane, Lex, LexesTo, InsertHead, InsertStart, Listed, StuckAt, AllGood, Stops;
    var ts, list := OpenInsert(table, values, commas, trailing), Listed(ValueTokens, values, commas);
    GoodValues(s, table, values, commas, Comma(trailing), end);
    OpenEnds(table, values, commas, trailing);
    ReadExactly(s.u, s.input, ts, end);
    assert Reads(s, 0, ts, end);
    var start := ReadsSplit(s, 0, InsertStart(table), list + Comma(trailing), end);
    var start' := InsertHeadExactly(s);
    var mid := ReadsSplit(s, start, list, Comma(trailing), end);
    StuckIs(s, end);
    if trailing {
      assert Comma(trailing) == [Symbol(",")] + [];
      ReadsCons(s, mid, Symbol(","), [], end);
      ReadsNothing(s, Next(s, mid), end);
      PastIs(s, mid);
    } else {
      ReadsNothing(s, mid, end);
    }
    ValuesRead(s, start, [], values, commas, mid);
  }

  /** INSERT parsing never ends exactly if the text spells INSERT INTO name VALUES ( and any values,
      perhaps with one comma in front of each and one behind them, and then, behind spaces, comes a
      character no token can start with. */
  lemma InsertDivergesExactly(s: Source)
    requires Sane(s.u)
    ensures ParseInsert(s).Diverges? <==>
            exists table, values, commas, trailing, end :: SpinsBehind(s, table, values, commas, trailing, end)
  {
    hide Sane, ParseInsert, SpinsBehind;
    if ParseInsert(s).Diverges? {
      var table, values, commas, trailing, end := SpinsWritten(s);
    }
    if table, values, commas, trailing, end :| SpinsBehind(s, table, values, commas, trailing, end) {
      SpinsRead(s, table, values, commas, trailing, end);
    }
  }

  /* ---------- CREATE TABLE ---------- */

  lemma CreateHeadExactly(s: Source) returns (end: nat)
    ensures end <= |s.input|
    ensures CreateHead(s).Some? ==>
              CreateHead(s).value.state == Advance(s, end) && Reads(s, 0, CreateStart(CreateHead(s).value.value), end)
    ensures forall table, e :: Reads(s, 0, CreateStart(table), e) ==> e == end && CreateHead(s) == Some(Parsed(table, Advance(s, end)))
  {
    hide Lex, Reads;
    var p := Next(s, 0);
    end := Next(s, Next(s, Next(s, p)));
    forall table, e ensures Reads(s, 0, CreateStart(table), e) <==>
                              && e == end && Tok(s, 0) == Keyword("CREATE") && Tok(s, p) == Keyword("TABLE")
                              && Tok(s, Next(s, p)) == Name(table) && Tok(s, Next(s, Next(s, p))) == Symbol("(")
    {
      Reads4(s, 0, Keyword("CREATE"), Keyword("TABLE"), Name(table), Symbol("("), e);
      Reads3(s, p, Keyword("TABLE"), Name(table), Symbol("("), e);
    }
  }

  /** A primary key clause is five tokens. */
  lemma KeyExactly(s: Source, pos: nat) returns (end: nat)
    requires pos <= |s.input|
    ensures end <= |s.input|
    ensures PrimaryKeyColumn(s, Advance(s, pos)).Some? ==>
              var r := PrimaryKeyColumn(s, Advance(s, pos)).value;
              r.state == Advance(s, end) && Reads(s, pos, ItemTokens(Key(r.value)), end)
    ensures forall name, e :: Reads(s, pos, ItemTokens(Key(name)), e) ==>
              e == end && PrimaryKeyColumn(s, Advance(s, pos)) == Some(Parsed(name, Advance(s, end)))
  {
    hide Lex, Reads, Measure;
    var p := Next(s, Next(s, pos));
    end := Next(s, Next(s, Next(s, p)));
    forall name, e ensures Reads(s, pos, ItemTokens(Key(name)), e) <==>
                             && e == end && Tok(s, pos) == Keyword("PRIMARY") && Tok(s, Next(s, pos)) == Keyword("KEY") && Tok(s, p) == Symbol("(")
                             && Tok(s, Next(s, p)) == Name(name) && Tok(s, Next(s, Next(s, p))) == Symbol(")")
    {
      Reads5(s, pos, Keyword("PRIMARY"), Keyword("KEY"), Symbol("("), Name(name), Symbol(")"), e);
      Reads3(s, p, Symbol("("), Name(name), Symbol(")"), e);
    }
  }

  /** A column is its name and one of the three type names. */
  lemma ColumnExactly(s: Source, pos: nat) returns (end: nat)
    requires pos <= |s.input|
    ensures end <= |s.input|
    ensures OneColumn(s, Advance(s, pos)).Some? ==>
              var r := OneColumn(s, Advance(s, pos)).value;
              r.state == Advance(s, end) && Reads(s, pos, ItemTokens(Column(r.value)), end)
    ensures forall d, e :: Reads(s, pos, ItemTokens(Column(d)), e) ==>
              e == end && OneColumn(s, Advance(s, pos)) == Some(Parsed(d, Advance(s, end)))
  {
    hide Lex, Reads, Measure;
    end := Next(s, Next(s, pos));
    forall d, e ensures Reads(s, pos, ItemTokens(Column(d)), e) <==>
                          e == end && Tok(s, pos) == Name(d.name) && Tok(s, Next(s, pos)) == Name(TypeName(d.kind))
    {
      Reads2(s, pos, Name(d.name), Name(TypeName(d.kind)), e);
    }
    forall k: ColumnType ensures ColumnTypeOf(TypeName(k)) == Some(k) {}
  }

  /** The name in the last primary key clause, or else pk. */
  function LastKey(items: seq<Item>, pk: string): string {
    if items == [] then pk else LastKey(items[1..], if items[0].Key? then items[0].name else pk)
  }

  function Extended(acc: Columns, items: seq<Item>): Columns {
    Columns(acc.defs + Defs(items), LastKey(items, acc.pk))
  }

  function Extended1(acc: Columns, x: Item): Columns {
    match x
    case Column(d) => acc.(defs := acc.defs + [d])
    case Key(name) => acc.(pk := name)
  }

  lemma ExtendedCons(acc: Columns, x: Item, items: seq<Item>)
    ensures Extended(acc, []) == acc && Extended(acc, [x] + items) == Extended(Extended1(acc, x), items)
  {
    assert ([x] + items)[1..] == items && acc.defs + [] == acc.defs;
    match x
    case Column(d) => assert acc.defs + ([d] + Defs(items)) == acc.defs + [d] + Defs(items);
    case Key(name) => assert [] + Defs(items) == Defs(items);
  }

  /** The column loop on one item: an item is read exactly if it is there. */
  lemma ItemTurn(s: Source, pos: nat, acc: Columns) returns (x: Option<Item>, end: nat)
    requires pos <= |s.input| && Tok(s, pos).value != ")"
    ensures end <= |s.input|
    ensures x.None? ==> CreateColumns(s, Advance(s, pos), acc).None?
    ensures x.Some? ==>
              && CreateColumns(s, Advance(s, pos), acc) == CreateColumns(s, Advance(s, end), Extended1(acc, x.value))
              && Reads(s, Past(s, pos), ItemTokens(x.value), end) && Measure(s, Advance(s, end)) < Measure(s, Advance(s, pos))
    ensures Sane(s.u) ==> forall y, e :: Reads(s, Past(s, pos), ItemTokens(y), e) ==> x == Some(y) && e == end
  {
    hide Lex, Reads, PrimaryKeyColumn, OneColumn, Sane, Measure, SkipComma;
    var p := Past(s, pos);
    PastIs(s, pos);
    TokIs(s, p);
    forall y, e | Reads(s, p, ItemTokens(y), e) ensures Tok(s, p) == ItemTokens(y)[0] {
      ReadsCons(s, p, ItemTokens(y)[0], ItemTokens(y)[1..], e);
      assert ItemTokens(y) == [ItemTokens(y)[0]] + ItemTokens(y)[1..];
    }
    if Tok(s, p).value == "PRIMARY" {
      end := KeyExactly(s, p);
      var r := PrimaryKeyColumn(s, Advance(s, p));
      x := if r.None? then None else Some(Key(r.value.value));
    } else {
      end := ColumnExactly(s, p);
      var r := OneColumn(s, Advance(s, p));
      x := if r.None? then None else Some(Column(r.value.value));
    }
  }

  lemma {:induction false} ItemsWritten(s: Source, pos: nat, acc: Columns) returns (items: seq<Item>, commas: seq<bool>, end: nat)
    requires pos <= |s.input| && CreateColumns(s, Advance(s, pos), acc).Some?
    ensures |commas| == |items| && Reads(s, pos, Listed(ItemTokens, items, commas), end) && Tok(s, end).value == ")"
    ensures CreateColumns(s, Advance(s, pos), acc) == Some(Parsed(Extended(acc, items), Advance(s, end)))
    decreases Measure(s, Advance(s, pos))
  {
    hide Lex, LexesTo, Listed, Measure, Extended, ItemTokens;
    if Tok(s, pos).value == ")" {
      items, commas, end := [], [], pos;
      ListedNothing(ItemTokens);
      ReadsNothing(s, pos, pos);
      ExtendedCons(acc, Key(""), []);
    } else {
      hide CreateColumns;
      var x, mid := ItemTurn(s, pos, acc);
      var xs, bs;
      xs, bs, end := ItemsWritten(s, mid, Extended1(acc, x.value));
      items, commas := [x.value] + xs, [Tok(s, pos).value == ","] + bs;
      ExtendedCons(acc, x.value, xs);
      PutItem(s, pos, ItemTokens(x.value), mid, Listed(ItemTokens, xs, bs), end);
      ListedCons(ItemTokens, x.value, xs, Tok(s, pos).value == ",", bs);
    }
  }

  lemma {:induction false} ItemsRead(s: Source, pos: nat, acc: Columns, items: seq<Item>, commas: seq<bool>, end: nat)
    requires Sane(s.u) && |commas| == |items| && Reads(s, pos, Listed(ItemTokens, items, commas), end) && Tok(s, end).value == ")"
    requires forall x <- items :: ItemTokens(x)[0].value != ","
    ensures CreateColumns(s, Advance(s, pos), acc) == Some(Parsed(Extended(acc, items), Advance(s, end)))
    decreases |items|
  {
    hide Sane, Lex, LexesTo, Listed, Measure, Extended;
    if items == [] {
      ListedNothing(ItemTokens);
      ReadsNothing(s, pos, end);
      ExtendedCons(acc, Key(""), []);
    } else {
      hide CreateColumns;
      var x, more := items[0], Listed(ItemTokens, items[1..], commas[1..]);
      ListedCons(ItemTokens, x, items[1..], commas[0], commas[1..]);
      assert [x] + items[1..] == items && [commas[0]] + commas[1..] == commas && x in items;
      forall y | y in items[1..] ensures y in items {}
      var mid := TakeItem(s, pos, commas[0], ItemTokens(x), more, end);
      TokIs(s, pos);
      var x', mid' := ItemTurn(s, pos, acc);
      ItemsRead(s, mid, Extended1(acc, x), items[1..], commas[1..], end);
      ExtendedCons(acc, x, items[1..]);
    }
  }

  /** KeyIs is what the code computes. */
  lemma {:induction false} LastKeyIs(items: seq<Item>, pk: string)
    ensures (forall x <- items :: x.Column?) ==> LastKey(items, pk) == pk
    ensures forall i :: 0 <= i < |items| && items[i].Key? && (forall j :: i < j < |items| ==> items[j].Column?) ==>
              LastKey(items, pk) == items[i].name
    ensures (forall x <- items :: x.Column?) ||
            exists i :: 0 <= i < |items| && items[i].Key? && (forall j :: i < j < |items| ==> items[j].Column?)
    decreases |items|
  {
    if items != [] {
      var pk' := if items[0].Key? then items[0].name else pk;
      var more := items[1..];
      LastKeyIs(more, pk');
      if forall x <- items :: x.Column? {
        assert items[0] in items;
        forall x | x in more ensures x in items {}
      }
      forall i | 0 <= i < |items| && items[i].Key? && (forall j :: i < j < |items| ==> items[j].Column?)
        ensures LastKey(items, pk) == items[i].name
      {
        if i > 0 {
          assert more[i - 1] == items[i];
        } else {
          forall x | x in more ensures x.Column? {
            var j :| 0 <= j < |more| && more[j] == x;
            assert items[j + 1] == x;
          }
        }
      }
      if i :| 0 <= i < |more| && more[i].Key? && (forall j :: i < j < |more| ==> more[j].Column?) {
        assert items[i + 1].Key? && forall j :: i + 1 < j < |items| ==> items[j] == more[j - 1];
      } else {
        assert items[0].Key? ==> forall j :: 0 < j < |items| ==> items[j] == more[j - 1] && items[j] in more;
        assert items[0].Column? ==> forall x <- items :: x == items[0] || x in more;
      }
    }
  }

  lemma KeyIsExactly(items: seq<Item>, defs: seq<ColumnDef>, p: nat)
    requires forall x <- items :: x.Key? ==> x.name != ""
    ensures KeyIs(items, defs, p) <==> PkPosition(Columns(defs, LastKey(items, ""))) == Some(p)
  {
    LastKeyIs(items, "");
    if i :| 0 <= i < |items| && items[i].Key? && (forall j :: i < j < |items| ==> items[j].Column?) {
      assert items[i] in items;
      LastNamedIs(defs, items[i].name, p);
    }
  }

  lemma LastNamedIs(defs: seq<ColumnDef>, name: string, p: nat)
    ensures LastNamed(defs, name) == Some(p) <==>
              p < |defs| && defs[p].name == name && forall j :: p < j < |defs| ==> defs[j].name != name
  {
    hide LastNamed;
    var q := LastNamed(defs, name);
    assert q.Some? ==> forall j :: q.value < j < |defs| ==> defs[j].name != name;
  }

  lemma CreateEndsIn(table: string, items: seq<Item>, commas: seq<bool>)
    requires |commas| == |items|
    ensures var ts := CreateTokens(table, items, commas); ts != [] && ts[|ts| - 1] == Symbol(")")
  {
  }

  lemma GoodItems(s: Source, table: string, items: seq<Item>, commas: seq<bool>, end: nat)
    requires Sane(s.u) && |commas| == |items| && Reads(s, 0, CreateTokens(table, items, commas), end)
    ensures forall x <- items :: ItemTokens(x)[0].value != "," && (x.Key? ==> x.name != "")
  {
    hide Sane, GoodToken, Listed, LexesTo;
    CreateEndsIn(table, items, commas);
    ReadIsGood(s.u, s.input, 0, CreateTokens(table, items, commas), end);
    GoodJoin(s.u, CreateStart(table), Listed(ItemTokens, items, commas) + [Symbol(")")]);
    GoodJoin(s.u, Listed(ItemTokens, items, commas), [Symbol(")")]);
    ListedGood(s.u, ItemTokens, items, commas);
    forall x | x in items ensures ItemTokens(x)[0].value != "," && (x.Key? ==> x.name != "") {
      var ts := ItemTokens(x);
      assert AllGood(s.u, ts);
      match x
      case Column(d) => assert ts[0] in ts; NoGoodName(s.u, d.name);
      case Key(name) => assert ts[3] in ts; GoodHasValue(s.u, Name(name));
    }
  }

  /** What CREATE TABLE makes of the items between its brackets. */
  ghost predicate Creates(t: CreateTable, items: seq<Item>) {
    t.columns != [] && t.columns == Defs(items) && KeyIs(items, t.columns, t.pkPosition)
  }

  lemma CreateWritten(s: Source) returns (items: seq<Item>, commas: seq<bool>, end: nat)
    requires Sane(s.u) && ParseCreate(s).Some?
    ensures var t := ParseCreate(s).value;
            Creates(t, items) && |commas| == |items| && Reads(s, 0, CreateTokens(t.table, items, commas), end)
  {
    hide Sane, Lex, LexesTo, CreateHead, CreateColumns, CreateStart, Listed, PkPosition, KeyIs;
    var t := ParseCreate(s).value;
    var start := CreateHeadExactly(s);
    var mid;
    items, commas, mid := ItemsWritten(s, start, Columns([], ""));
    assert [] + Defs(items) == Defs(items);
    end := Next(s, mid);
    ReadsOne(s, mid);
    ReadsJoin(s, start, Listed(ItemTokens, items, commas), mid, [Symbol(")")], end);
    ReadsJoin(s, 0, CreateStart(t.table), start, Listed(ItemTokens, items, commas) + [Symbol(")")], end);
    GoodItems(s, t.table, items, commas, end);
    KeyIsExactly(items, t.columns, t.pkPosition);
  }

  lemma CreateRead(s: Source, t: CreateTable, items: seq<Item>, commas: seq<bool>, end: nat)
    requires Sane(s.u) && Creates(t, items) && |commas| == |items| && Reads(s, 0, CreateTokens(t.table, items, commas), end)
    ensures ParseCreate(s) == Some(t)
  {
    hide Sane, Lex, LexesTo, CreateHead, CreateColumns, CreateStart, Listed, PkPosition, KeyIs;
    GoodItems(s, t.table, items, commas, end);
    var list := Listed(ItemTokens, items, commas);
    var start := ReadsSplit(s, 0, CreateStart(t.table), list + [Symbol(")")], end);
    var start' := CreateHeadExactly(s);
    var mid := ReadsSplit(s, start, list, [Symbol(")")], end);
    assert [Symbol(")")] == [Symbol(")")] + [];
    ReadsCons(s, mid, Symbol(")"), [], end);
    ItemsRead(s, start, Columns([], ""), items, commas, mid);
    assert [] + Defs(items) == Defs(items);
    KeyIsExactly(items, t.columns, t.pkPosition);
  }

  /** CREATE TABLE is accepted exactly if the text begins with one, up to its closing bracket, in any
      layout, with columns and primary key clauses in any order, with or without commas between them. */
  lemma CreateExactly(s: Source, t: CreateTable)
    requires Sane(s.u)
    ensures ParseCreate(s) == Some(t) <==>
              exists items, commas: seq<bool> | |commas| == |items| :: Creates(t, items) && Begins(s, CreateTokens(t.table, items, commas))
  {
    hide Sane, LexesTo, ParseCreate, Begins, CreateTokens, Creates, Reads;
    forall items, commas: seq<bool> | |commas| == |items|
      ensures Begins(s, CreateTokens(t.table, items, commas)) <==> exists end: nat :: Reads(s, 0, CreateTokens(t.table, items, commas), end)
    {
      CreateEndsIn(t.table, items, commas);
      BeginsExactly(s, CreateTokens(t.table, items, commas));
    }
    if ParseCreate(s) == Some(t) {
      var items, commas, end := CreateWritten(s);
    }
    if items, commas: seq<bool>, end: nat :| |commas| == |items| && Creates(t, items) && Reads(s, 0, CreateTokens(t.table, items, commas), end) {
      CreateRead(s, t, items, commas, end);
    }
  }

  /* ---------- Printed statements parse back ---------- */

  ghost predicate GoodName(u: Unicode, s: string) {
    GoodToken(u, Name(s))
  }

  ghost predicate GoodCondition(u: Unicode, c: QueryCondition) {
    GoodName(u, c.column) && GoodToken(u, Token(CONDITIONAL_OPERATOR, c.op)) && GoodName(u, c.value)
  }

  /** One to ten columns, at most eleven conditions, over good names and operators. */
  ghost predicate GoodSelect(u: Unicode, q: SelectQuery) {
    && Bounded(q) && GoodName(u, q.table)
    && (forall c <- q.columns :: c == "*" || GoodName(u, c))
    && (forall c <- q.conditions :: GoodCondition(u, c))
  }

  /** A text in which ts is spelled, and anything behind it. */
  lemma SpelledBegins(u: Unicode, gaps: seq<string>, ts: seq<Token>, rest: string)
    requires ts != [] && ts[|ts| - 1].kind == SYMBOL && AllGood(u, ts) && Layout(u, gaps, ts)
    ensures Begins(Source(u, Spell(gaps, ts) + rest), ts)
  {
    hide AllGood, Spell;
    var input := Spell(gaps, ts) + rest;
    assert input[..|Spell(gaps, ts)|] == Spell(gaps, ts);
    assert Spelled(u, input, ts, |Spell(gaps, ts)|);
  }

  /** The reserved words of the grammar, its operators and its symbols are good tokens. */
  lemma GoodWords(u: Unicode)
    requires Sane(u)
    ensures forall w | IsKeyword(w) :: GoodToken(u, Keyword(w))
    ensures forall c | c in {"(", ")", ",", ";", "*"} :: GoodToken(u, Symbol(c))
  {
    hide IsSymbol, IsOperator, IsWord;
    forall w | IsKeyword(w) ensures GoodToken(u, Keyword(w)) {
      ReservedIs(u, w);
      forall c | c in w ensures IsWord(u, c) {
        var i :| 0 <= i < |w| && w[i] == c;
      }
    }
  }

  lemma {:induction false} GoodAnds(u: Unicode, cs: seq<QueryCondition>, first: bool)
    requires Sane(u) && forall c <- cs :: GoodCondition(u, c)
    ensures AllGood(u, AndTokens(cs, first))
    decreases |cs|
  {
    hide Sane, GoodToken, IsKeyword;
    if cs != [] {
      forall c | c in cs[1..] ensures c in cs {}
      GoodAnds(u, cs[1..], false);
      assert cs[0] in cs;
      GoodWords(u);
      KeywordsAre();
      GoodJoin(u, ConditionTokens(cs[0]), AndTokens(cs[1..], false));
      GoodJoin(u, And(first), ConditionTokens(cs[0]) + AndTokens(cs[1..], false));
    }
  }

  lemma GoodSelectTokens(u: Unicode, q: SelectQuery, commas: seq<bool>)
    requires Sane(u) && GoodSelect(u, q) && |commas| == |q.columns|
    ensures AllGood(u, SelectTokens(q, commas))
  {
    hide Sane, GoodToken, IsKeyword, Listed, AndTokens;
    GoodWords(u);
    KeywordsAre();
    ListedGood(u, ColumnTokens, q.columns, commas);
    GoodAnds(u, q.conditions, true);
    var where, from := WhereTokens(q.conditions), [Keyword("FROM"), Name(q.table)];
    GoodJoin(u, [Keyword("WHERE")], AndTokens(q.conditions, true));
    GoodJoin(u, where, [Symbol(";")]);
    GoodJoin(u, from, where + [Symbol(";")]);
    GoodJoin(u, Listed(ColumnTokens, q.columns, commas), from + (where + [Symbol(";")]));
    GoodJoin(u, [Keyword("SELECT")], Listed(ColumnTokens, q.columns, commas) + (from + (where + [Symbol(";")])));
  }

  /** A printed SELECT parses back to itself, in any layout and whatever text follows its semicolon. */
  lemma SelectRoundTrip(u: Unicode, q: SelectQuery, commas: seq<bool>, gaps: seq<string>, rest: string)
    requires Sane(u) && GoodSelect(u, q) && |commas| == |q.columns| && Layout(u, gaps, SelectTokens(q, commas))
    ensures ParseSelect(Source(u, Spell(gaps, SelectTokens(q, commas)) + rest)) == Some(q)
  {
    hide Sane, GoodName, GoodCondition, ParseSelect, SelectTokens, AllGood, NeedsSpace, Begins, Spell;
    GoodSelectTokens(u, q, commas);
    SelectEnds(q, commas);
    SpelledBegins(u, gaps, SelectTokens(q, commas), rest);
    SelectExactly(Source(u, Spell(gaps, SelectTokens(q, commas)) + rest), q);
  }

  /** Every accepted SELECT names one to ten columns and at most eleven conditions. */
  lemma AcceptedSelectIsBounded(s: Source)
    requires ParseSelect(s).Some?
    ensures var q := ParseSelect(s).value; 1 <= |q.columns| <= 10 && |q.conditions| <= 11
  {
    var _, _ := SelectWritten(s);
  }

  lemma GoodInsertTokens(u: Unicode, table: string, values: seq<string>, commas: seq<bool>, last: seq<Token>)
    requires Sane(u) && GoodName(u, table) && (forall v <- values :: GoodName(u, v)) && |commas| == |values| && AllGood(u, last)
    ensures AllGood(u, InsertStart(table) + (Listed(ValueTokens, values, commas) + last))
  {
    hide Sane, GoodToken, IsKeyword, Listed;
    GoodWords(u);
    KeywordsAre();
    ListedGood(u, ValueTokens, values, commas);
    GoodJoin(u, Listed(ValueTokens, values, commas), last);
    assert AllGood(u, InsertStart(table));
    GoodJoin(u, InsertStart(table), Listed(ValueTokens, values, commas) + last);
  }

  /** A printed INSERT parses back to itself, with any number of values, in any layout, whatever follows. */
  lemma InsertRoundTrip(u: Unicode, q: InsertInto, commas: seq<bool>, gaps: seq<string>, rest: string)
    requires Sane(u) && GoodName(u, q.table) && (forall v <- q.values :: GoodName(u, v))
    requires |commas| == |q.values| && Layout(u, gaps, InsertTokens(q, commas))
    ensures ParseInsert(Source(u, Spell(gaps, InsertTokens(q, commas)) + rest)) == Accepted(q)
  {
    hide Sane, GoodName, ParseInsert, InsertStart, Listed, NeedsSpace, Begins, Spell;
    EndIsGood(u);
    GoodInsertTokens(u, q.table, q.values, commas, [Symbol(")")]);
    InsertEndsIn(q, commas);
    SpelledBegins(u, gaps, InsertTokens(q, commas), rest);
    InsertExactly(Source(u, Spell(gaps, InsertTokens(q, commas)) + rest), q);
  }

  lemma EndIsGood(u: Unicode)
    ensures AllGood(u, [Symbol(")")])
  {
  }

  /** A printed INSERT cut off in its value list, behind its bracket, a value or a comma, and continued
      with an unsupported character, such as a quote or an underscore, never ends. */
  lemma InsertSpins(u: Unicode, table: string, values: seq<string>, commas: seq<bool>, trailing: bool, gaps: seq<string>, c: char, rest: string)
    requires Sane(u) && GoodName(u, table) && (forall v <- values :: GoodName(u, v)) && Unsupported(u, c)
    requires |commas| == |values| && Layout(u, gaps, OpenInsert(table, values, commas, trailing))
    ensures ParseInsert(Source(u, Spell(gaps, OpenInsert(table, values, commas, trailing)) + ([c] + rest))) == Diverges
  {
    hide Sane, GoodName, ParseInsert, InsertStart, Listed, NeedsSpace, Spell, Unsupported, GoodToken;
    var ts := OpenInsert(table, values, commas, trailing);
    var s := Source(u, Spell(gaps, ts) + ([c] + rest));
    var end := |Spell(gaps, ts)|;
    GoodComma(u, trailing);
    GoodInsertTokens(u, table, values, commas, Comma(trailing));
    assert s.input[..end] == Spell(gaps, ts) && s.input[end..] == [c] + rest && s.input[end] == c;
    UnsupportedStops(u, ts[|ts| - 1].kind, c, rest);
    assert StuckAt(s, end);
    assert Spelled(u, s.input, ts, end);
    assert SpinsBehind(s, table, values, commas, trailing, end);
    InsertDivergesExactly(s);
  }

  lemma UnsupportedStops(u: Unicode, kind: TokenType, c: char, rest: string)
    requires Unsupported(u, c)
    ensures Stops(u, kind, [c] + rest)
  {
  }

  /** The columns of a table as items, with a primary key clause behind them or none. */
  function TableItems(defs: seq<ColumnDef>, pk: Option<string>): (items: seq<Item>)
    ensures |items| == |defs| + if pk.Some? then 1 else 0
    ensures forall i :: 0 <= i < |defs| ==> items[i] == Column(defs[i])
    ensures pk.Some? ==> items[|defs|] == Key(pk.value)
  {
    seq(|defs|, i requires 0 <= i < |defs| => Column(defs[i])) + if pk.Some? then [Key(pk.value)] else []
  }

  lemma {:induction false} DefsOf(items: seq<Item>, defs: seq<ColumnDef>)
    requires |defs| <= |items| <= |defs| + 1 && (forall i :: 0 <= i < |defs| ==> items[i] == Column(defs[i]))
    requires |items| == |defs| + 1 ==> items[|defs|].Key?
    ensures Defs(items) == defs
    decreases |items|
  {
    if defs != [] { DefsOf(items[1..], defs[1..]); }
    else if items != [] { assert Defs(items[1..]) == []; }
  }

  lemma TypeNamesAreGood(u: Unicode, k: ColumnType)
    requires forall c: char :: 'A' <= c <= 'Z' ==> IsWord(u, c) && u.toUpper(c) == c
    ensures GoodName(u, TypeName(k))
  {
    hide IsKeyword, IsReserved, IsWord;
    var t := TypeName(k);
    assert forall c <- t :: 'A' <= c <= 'Z';
    assert ToUpper(u, t) == t;
    NoTypeIsKeyword(k);
    ReservedIs(u, t);
  }

  lemma NoTypeIsKeyword(k: ColumnType)
    ensures !IsKeyword(TypeName(k))
  {
  }

  lemma GoodCreateTokens(u: Unicode, table: string, defs: seq<ColumnDef>, pk: Option<string>, commas: seq<bool>)
    requires Sane(u) && (forall c: char :: 'A' <= c <= 'Z' ==> IsWord(u, c) && u.toUpper(c) == c)
    requires GoodName(u, table) && (forall d <- defs :: GoodName(u, d.name)) && (pk.Some? ==> GoodName(u, pk.value))
    requires |commas| == |TableItems(defs, pk)|
    ensures AllGood(u, CreateTokens(table, TableItems(defs, pk), commas))
  {
    hide Sane, GoodToken, IsKeyword, Listed, TypeName;
    var items := TableItems(defs, pk);
    GoodWords(u);
    KeywordsAre();
    EndIsGood(u);
    forall x | x in items ensures AllGood(u, ItemTokens(x)) {
      var i :| 0 <= i < |items| && items[i] == x;
      if i < |defs| {
        assert defs[i] in defs;
        TypeNamesAreGood(u, defs[i].kind);
      }
    }
    ListedGood(u, ItemTokens, items, commas);
    GoodJoin(u, Listed(ItemTokens, items, commas), [Symbol(")")]);
    assert AllGood(u, CreateStart(table));
    GoodJoin(u, CreateStart(table), Listed(ItemTokens, items, commas) + [Symbol(")")]);
  }

  /** A printed CREATE TABLE keeps its name and columns, and its key is the last column of the printed
      name, or the first column if it was printed without a PRIMARY KEY clause. */
  lemma CreateIsRead(u: Unicode, t: CreateTable, pk: Option<string>, commas: seq<bool>, gaps: seq<string>, rest: string)
    requires Sane(u) && (forall c: char :: 'A' <= c <= 'Z' ==> IsWord(u, c) && u.toUpper(c) == c)
    requires GoodName(u, t.table) && (forall d <- t.columns :: GoodName(u, d.name)) && t.pkPosition < |t.columns|
    requires |commas| == |TableItems(t.columns, pk)| && Layout(u, gaps, CreateTokens(t.table, TableItems(t.columns, pk), commas))
    requires pk.None? ==> t.pkPosition == 0
    requires pk.Some? ==> t.columns[t.pkPosition].name == pk.value
    requires pk.Some? ==> forall j :: t.pkPosition < j < |t.columns| ==> t.columns[j].name != pk.value
    ensures ParseCreate(Source(u, Spell(gaps, CreateTokens(t.table, TableItems(t.columns, pk), commas)) + rest)) == Some(t)
  {
    hide Sane, GoodName, ParseCreate, CreateTokens, AllGood, NeedsSpace, Begins, Spell;
    var items := TableItems(t.columns, pk);
    assert pk.Some? ==> t.columns[t.pkPosition] in t.columns;
    GoodCreateTokens(u, t.table, t.columns, pk, commas);
    CreateEndsIn(t.table, items, commas);
    SpelledBegins(u, gaps, CreateTokens(t.table, items, commas), rest);
    DefsOf(items, t.columns);
    assert pk.Some? ==> items[|t.columns|] in items;
    assert KeyIs(items, t.columns, t.pkPosition);
    assert Creates(t, items);
    CreateExactly(Source(u, Spell(gaps, CreateTokens(t.table, items, commas)) + rest), t);
  }

  /** Printed without a PRIMARY KEY clause, a table is keyed by its first column. */
  lemma CreateWithoutKey(u: Unicode, table: string, columns: seq<ColumnDef>, commas: seq<bool>, gaps: seq<string>, rest: string)
    requires Sane(u) && (forall c: char :: 'A' <= c <= 'Z' ==> IsWord(u, c) && u.toUpper(c) == c)
    requires GoodName(u, table) && (forall d <- columns :: GoodName(u, d.name)) && columns != []
    requires |commas| == |columns| && Layout(u, gaps, CreateTokens(table, TableItems(columns, None), commas))
    ensures ParseCreate(Source(u, Spell(gaps, CreateTokens(table, TableItems(columns, None), commas)) + rest))
            == Some(CreateTable(table, columns, 0))
  {
    CreateIsRead(u, CreateTable(table, columns, 0), None, commas, gaps, rest);
  }

  /** A CREATE TABLE printed with the name of its key parses back to itself exactly if its key is the
      last column of that name. */
  lemma CreateRoundTripExactly(u: Unicode, t: CreateTable, commas: seq<bool>, gaps: seq<string>, rest: string)
    requires Sane(u) && (forall c: char :: 'A' <= c <= 'Z' ==> IsWord(u, c) && u.toUpper(c) == c)
    requires GoodName(u, t.table) && (forall d <- t.columns :: GoodName(u, d.name)) && t.pkPosition < |t.columns|
    requires var pk := Some(t.columns[t.pkPosition].name);
             |commas| == |t.columns| + 1 && Layout(u, gaps, CreateTokens(t.table, TableItems(t.columns, pk), commas))
    ensures var pk := Some(t.columns[t.pkPosition].name);
            ParseCreate(Source(u, Spell(gaps, CreateTokens(t.table, TableItems(t.columns, pk), commas)) + rest)) == Some(t)
            <==> forall i :: t.pkPosition < i < |t.columns| ==> t.columns[i].name != pk.value
  {
    hide ParseCreate, CreateTokens, NeedsSpace, Spell, GoodName, Sane;
    var name := t.columns[t.pkPosition].name;
    var last := LastNamed(t.columns, name).value;
    CreateIsRead(u, t.(pkPosition := last), Some(name), commas, gaps, rest);
    LastNamedIs(t.columns, name, t.pkPosition);
  }
}
