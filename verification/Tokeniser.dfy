/** The SQL tokeniser (sql_parser/tokeniser.go), for any classification of characters. */
module Tokenisers {

  /** What the unicode package says of a character. */
  datatype Unicode = Unicode(isSpace: char -> bool, isLetter: char -> bool, isDigit: char -> bool, toUpper: char -> char)

  datatype TokenType = IDENTIFIER | KEYWORD | SYMBOL | CONDITIONAL_OPERATOR | EOF

  datatype Token = Token(kind: TokenType, value: string)

  const SYMBOLS: string := "(),;*"
  const OPERATORS: string := "<>="
  const KEYWORDS: set<string> :=
    {"CREATE", "TABLE", "PRIMARY", "KEY", "INSERT", "INTO", "VALUES", "SELECT", "FROM", "WHERE", "AND"}

  predicate IsWord(u: Unicode, c: char) {
    u.isDigit(c) || u.isLetter(c)
  }

  predicate IsSymbol(c: char) {
    c in SYMBOLS
  }

  predicate IsOperator(c: char) {
    c in OPERATORS
  }

  predicate IsKeyword(s: string) {
    s in KEYWORDS
  }

  function ToUpper(u: Unicode, s: string): string {
    seq(|s|, i requires 0 <= i < |s| => u.toUpper(s[i]))
  }

  /** The first position at or after pos whose character fails p. */
  function Scan(p: char -> bool, input: string, pos: nat): (end: nat)
    requires pos <= |input|
    ensures pos <= end <= |input|
    ensures forall j :: pos <= j < end ==> p(input[j])
    ensures end < |input| ==> !p(input[end])
    decreases |input| - pos
  {
    if pos < |input| && p(input[pos]) then Scan(p, input, pos + 1) else pos
  }

  function WordToken(u: Unicode, val: string): Token {
    Token(if IsKeyword(ToUpper(u, val)) then KEYWORD else IDENTIFIER, val)
  }

  datatype Lexed = Lexed(token: Token, pos: nat)

  /** NextToken from a position. */
  function Lex(u: Unicode, input: string, pos: nat): (r: Lexed)
    requires pos <= |input|
    ensures pos <= r.pos <= |input|
  {
    var start := Scan(u.isSpace, input, pos);
    if start == |input| then Lexed(Token(EOF, ""), start)
    else if IsSymbol(input[start]) then Lexed(Token(SYMBOL, [input[start]]), start + 1)
    else if IsOperator(input[start]) then
      var end := Scan(c => IsOperator(c), input, start);
      Lexed(Token(CONDITIONAL_OPERATOR, input[start..end]), end)
    else
      var end := Scan(c => IsWord(u, c), input, start);
      Lexed(WordToken(u, input[start..end]), end)
  }

  /* ---------- What a token is ---------- */

  /** The upper-case form of val, character by character, is w. */
  ghost predicate UpperIs(u: Unicode, val: string, w: string) {
    |val| == |w| && forall i :: 0 <= i < |w| ==> u.toUpper(val[i]) == w[i]
  }

  ghost predicate IsReserved(u: Unicode, val: string) {
    exists w :: w in {"CREATE", "TABLE", "PRIMARY", "KEY", "INSERT", "INTO", "VALUES", "SELECT", "FROM", "WHERE", "AND"} && UpperIs(u, val, w)
  }

  /** The token handed out from pos, with the position behind it, said of the text alone: the characters
      skipped are spaces; a symbol is one character; an operator or a word is the longest stretch of
      its kind; and a word is a keyword if its upper-case form is reserved. */
  ghost predicate TokenAt(u: Unicode, input: string, pos: nat, t: Token, end: nat) {
    var start := end - |t.value|;
    && pos <= start <= end <= |input|
    && (forall j :: pos <= j < start ==> u.isSpace(input[j]))
    && (start < |input| ==> !u.isSpace(input[start]))
    && t.value == input[start..end]
    && match t.kind
       case EOF => start == |input|
       case SYMBOL => t.value in {"(", ")", ",", ";", "*"}
       case CONDITIONAL_OPERATOR =>
         && t.value != "" && (forall c <- t.value :: c in {'<', '>', '='})
         && (end < |input| ==> input[end] !in {'<', '>', '='})
       case _ =>
         && start < |input| && input[start] !in {'(', ')', ',', ';', '*', '<', '>', '='}
         && (forall c <- t.value :: u.isDigit(c) || u.isLetter(c))
         && (end < |input| ==> !u.isDigit(input[end]) && !u.isLetter(input[end]))
         && (t.kind == KEYWORD <==> IsReserved(u, t.value))
  }

  lemma SymbolsAre(c: char)
    ensures IsSymbol(c) <==> c in {'(', ')', ',', ';', '*'}
    ensures IsOperator(c) <==> c in {'<', '>', '='}
  {
  }

  lemma ReservedIs(u: Unicode, val: string)
    ensures IsReserved(u, val) <==> IsKeyword(ToUpper(u, val))
  {
    forall w | UpperIs(u, val, w) ensures w == ToUpper(u, val) {}
    assert UpperIs(u, val, ToUpper(u, val));
  }

  lemma LexIsToken(u: Unicode, input: string, pos: nat)
    requires pos <= |input|
    ensures TokenAt(u, input, pos, Lex(u, input, pos).token, Lex(u, input, pos).pos)
  {
    hide IsSymbol, IsOperator, IsKeyword, IsReserved;
    var start, r := Scan(u.isSpace, input, pos), Lex(u, input, pos);
    if start < |input| {
      SymbolsAre(input[start]);
      ReservedIs(u, r.token.value);
      forall c: char ensures IsOperator(c) <==> c in {'<', '>', '='} { SymbolsAre(c); }
      if IsSymbol(input[start]) { OneCharacter(input[start]); }
    }
  }

  lemma OneCharacter(c: char)
    ensures [c] in {"(", ")", ",", ";", "*"} <==> c in {'(', ')', ',', ';', '*'}
  {
    if c in {'(', ')', ',', ';', '*'} {
      assert [c] == "(" || [c] == ")" || [c] == "," || [c] == ";" || [c] == "*";
    }
    if [c] in {"(", ")", ",", ";", "*"} {
      assert [c][0] == c;
    }
  }

  /** TokenAt determines the token and the position behind it. */
  lemma TokenIsLex(u: Unicode, input: string, pos: nat, t: Token, end: nat)
    requires pos <= |input| && TokenAt(u, input, pos, t, end)
    ensures Lex(u, input, pos) == Lexed(t, end)
  {
    hide IsReserved, IsKeyword;
    var start := end - |t.value|;
    var r := Lex(u, input, pos);
    LexIsToken(u, input, pos);
    ScanStops(u.isSpace, input, pos, start);
    assert r.pos - |r.token.value| == Scan(u.isSpace, input, pos) by { LexStarts(u, input, pos); }
    if start < |input| {
      SymbolsAre(input[start]);
      if t.value != "" { assert t.value[0] == input[start]; }
      if IsSymbol(input[start]) {
        OneCharacter(input[start]);
        SymbolHere(u, input, start, end, t);
      } else if IsOperator(input[start]) {
        OperatorHere(u, input, start, end, t);
      } else {
        WordHere(u, input, start, end, t);
      }
    }
  }

  lemma {:induction false} ScanStops(p: char -> bool, input: string, pos: nat, start: nat)
    requires pos <= start <= |input| && (forall j :: pos <= j < start ==> p(input[j]))
    requires start < |input| ==> !p(input[start])
    ensures Scan(p, input, pos) == start
    decreases start - pos
  {
    if pos < start { ScanStops(p, input, pos + 1, start); }
  }

  lemma LexStarts(u: Unicode, input: string, pos: nat)
    requires pos <= |input|
    ensures Lex(u, input, pos).pos - |Lex(u, input, pos).token.value| == Scan(u.isSpace, input, pos)
  {
  }

  lemma SymbolHere(u: Unicode, input: string, start: nat, end: nat, t: Token)
    requires start <= end <= |input| && start < |input| && input[start] in {'(', ')', ',', ';', '*'}
    requires t.value == input[start..end] && t.kind != EOF
    requires t.kind == SYMBOL ==> t.value in {"(", ")", ",", ";", "*"}
    requires t.kind == CONDITIONAL_OPERATOR ==> t.value != "" && forall c <- t.value :: c in {'<', '>', '='}
    requires t.kind == IDENTIFIER || t.kind == KEYWORD ==> input[start] !in {'(', ')', ',', ';', '*', '<', '>', '='}
    ensures t == Token(SYMBOL, [input[start]]) && end == start + 1
  {
    assert start < end ==> t.value[0] == input[start] && t.value[0] in t.value;
  }

  lemma OperatorHere(u: Unicode, input: string, start: nat, end: nat, t: Token)
    requires start <= end <= |input| && start < |input| && input[start] in {'<', '>', '='}
    requires t.value == input[start..end] && t.kind != EOF
    requires t.kind == SYMBOL ==> t.value in {"(", ")", ",", ";", "*"}
    requires t.kind == CONDITIONAL_OPERATOR ==>
               t.value != "" && (forall c <- t.value :: c in {'<', '>', '='}) && (end < |input| ==> input[end] !in {'<', '>', '='})
    requires t.kind == IDENTIFIER || t.kind == KEYWORD ==> input[start] !in {'(', ')', ',', ';', '*', '<', '>', '='}
    ensures t.kind == CONDITIONAL_OPERATOR && end == Scan(c => IsOperator(c), input, start)
  {
    assert start < end ==> t.value[0] == input[start];
    forall j | start <= j < end ensures IsOperator(input[j]) {
      assert input[j] == t.value[j - start] && t.value[j - start] in t.value;
      SymbolsAre(input[j]);
    }
    if end < |input| { SymbolsAre(input[end]); }
    ScanStops(c => IsOperator(c), input, start, end);
  }

  lemma WordHere(u: Unicode, input: string, start: nat, end: nat, t: Token)
    requires start <= end <= |input| && start < |input| && input[start] !in {'(', ')', ',', ';', '*', '<', '>', '='}
    requires t.value == input[start..end] && t.kind != EOF
    requires t.kind == SYMBOL ==> t.value in {"(", ")", ",", ";", "*"}
    requires t.kind == CONDITIONAL_OPERATOR ==> t.value != "" && forall c <- t.value :: c in {'<', '>', '='}
    requires t.kind == IDENTIFIER || t.kind == KEYWORD ==>
               && (forall c <- t.value :: u.isDigit(c) || u.isLetter(c))
               && (end < |input| ==> !u.isDigit(input[end]) && !u.isLetter(input[end]))
               && (t.kind == KEYWORD <==> IsReserved(u, t.value))
    ensures t == WordToken(u, input[start..end]) && end == Scan(c => IsWord(u, c), input, start)
  {
    hide IsReserved, IsKeyword;
    assert start < end ==> t.value[0] == input[start] && t.value[0] in t.value;
    forall j | start <= j < end ensures IsWord(u, input[j]) {
      assert input[j] == t.value[j - start] && t.value[j - start] in t.value;
    }
    ScanStops(c => IsWord(u, c), input, start, end);
    ReservedIs(u, t.value);
  }

  /** A character no token can start with: not space, symbol, operator, letter or digit. */
  predicate Unsupported(u: Unicode, c: char) {
    !u.isSpace(c) && !IsSymbol(c) && !IsOperator(c) && !IsWord(u, c)
  }

  /** Every token but EOF moves the position on, unless an unsupported character is next; there the
      tokeniser hands out an empty identifier and stays where it is, again and again. */
  lemma StuckExactly(u: Unicode, input: string, pos: nat)
    requires pos <= |input|
    ensures var start, r := Scan(u.isSpace, input, pos), Lex(u, input, pos);
            && (r.token == Token(IDENTIFIER, "") <==> start < |input| && Unsupported(u, input[start]))
            && (r.token == Token(IDENTIFIER, "") ==> r.pos == start && Lex(u, input, r.pos) == r)
            && (r.token.kind == EOF <==> start == |input|)
            && (r.token != Token(IDENTIFIER, "") && r.token.kind != EOF ==> r.pos > pos)
  {
    var start := Scan(u.isSpace, input, pos);
    if start < |input| {
      var end := Scan(c => IsWord(u, c), input, start);
      assert end == start ==> input[start..end] == "";
    }
  }

  class Tokeniser {
    const u: Unicode
    const input: string
    var pos: nat

    ghost predicate Valid()
      reads this
    {
      pos <= |input|
    }

    constructor (u: Unicode, input: string)
      ensures Valid() && this.u == u && this.input == input && pos == 0
    {
      this.u, this.input, pos := u, input, 0;
    }

    method NextToken() returns (token: Token)
      requires Valid()
      modifies this
      ensures Valid() && Lexed(token, pos) == Lex(u, input, old(pos))
      ensures TokenAt(u, input, old(pos), token, pos)
    {
      hide IsSymbol, IsKeyword, IsOperator, IsWord, TokenAt;
      LexIsToken(u, input, pos);
      while pos < |input| && u.isSpace(input[pos])
        invariant old(pos) <= pos <= |input|
        invariant Scan(u.isSpace, input, pos) == Scan(u.isSpace, input, old(pos))
        decreases |input| - pos
      {
        pos := pos + 1;
      }
      if pos >= |input| { return Token(EOF, ""); }
      var ch := input[pos];
      if IsSymbol(ch) {
        pos := pos + 1;
        return Token(SYMBOL, [ch]);
      }
      var start := pos;
      if IsOperator(ch) {
        while pos < |input| && IsOperator(input[pos])
          invariant start <= pos <= |input|
          invariant Scan(c => IsOperator(c), input, pos) == Scan(c => IsOperator(c), input, start)
          decreases |input| - pos
        {
          pos := pos + 1;
        }
        return Token(CONDITIONAL_OPERATOR, input[start..pos]);
      }
      while pos < |input| && IsWord(u, input[pos])
        invariant start <= pos <= |input|
        invariant Scan(c => IsWord(u, c), input, pos) == Scan(c => IsWord(u, c), input, start)
        decreases |input| - pos
      {
        pos := pos + 1;
      }
      var val := input[start..pos];
      if IsKeyword(ToUpper(u, val)) { return Token(KEYWORD, val); }
      return Token(IDENTIFIER, val);
    }
  }

  /* ---------- Texts and the tokens they are read as ---------- */

  /** Facts of the unicode package. */
  ghost predicate Sane(u: Unicode) {
    && (forall c :: IsSymbol(c) || IsOperator(c) ==> !u.isSpace(c) && !IsWord(u, c))
    && (forall c :: IsWord(u, c) ==> !u.isSpace(c))
    && (forall w :: IsKeyword(w) ==> ToUpper(u, w) == w && forall i :: 0 <= i < |w| ==> IsWord(u, w[i]))
  }

  /** A token that some text spells. */
  ghost predicate GoodToken(u: Unicode, t: Token) {
    && t.value != ""
    && match t.kind
       case SYMBOL => t.value in {"(", ")", ",", ";", "*"}
       case CONDITIONAL_OPERATOR => forall c <- t.value :: IsOperator(c)
       case EOF => false
       case _ => (forall c <- t.value :: IsWord(u, c)) && (t.kind == KEYWORD <==> IsReserved(u, t.value))
  }

  ghost predicate AllGood(u: Unicode, ts: seq<Token>) {
    forall t <- ts :: GoodToken(u, t)
  }

  /** The text of ts, with gaps[i] in front of ts[i]. */
  function Spell(gaps: seq<string>, ts: seq<Token>): string
    requires |gaps| == |ts|
  {
    if ts == [] then "" else gaps[0] + ts[0].value + Spell(gaps[1..], ts[1..])
  }

  /** Between two words and between two operators there is a space. */
  predicate NeedsSpace(a: Token, b: Token) {
    || (a.kind in {IDENTIFIER, KEYWORD} && b.kind in {IDENTIFIER, KEYWORD})
    || (a.kind == CONDITIONAL_OPERATOR && b.kind == CONDITIONAL_OPERATOR)
  }

  /** A layout of ts: gaps of spaces, empty only where the tokens do not run into each other. */
  ghost predicate Layout(u: Unicode, gaps: seq<string>, ts: seq<Token>) {
    && |gaps| == |ts|
    && (forall i :: 0 <= i < |gaps| ==> forall c <- gaps[i] :: u.isSpace(c))
    && (forall i :: 1 <= i < |gaps| && gaps[i] == "" ==> !NeedsSpace(ts[i - 1], ts[i]))
  }

  /** The text after a token of this kind does not continue it. */
  ghost predicate Stops(u: Unicode, kind: TokenType, rest: string) {
    match kind
    case CONDITIONAL_OPERATOR => rest != "" ==> !IsOperator(rest[0])
    case IDENTIFIER => rest != "" ==> !IsWord(u, rest[0])
    case KEYWORD => rest != "" ==> !IsWord(u, rest[0])
    case _ => true
  }

  /** From pos the tokeniser hands out exactly ts, and is then at end. */
  ghost predicate LexesTo(u: Unicode, input: string, pos: nat, ts: seq<Token>, end: nat)
    requires pos <= |input|
    decreases |ts|
  {
    if ts == [] then pos == end
    else
      var r := Lex(u, input, pos);
      r.token == ts[0] && LexesTo(u, input, r.pos, ts[1..], end)
  }

  lemma LexesStep(u: Unicode, input: string, pos: nat, ts: seq<Token>, end: nat)
    requires pos <= |input|
    ensures LexesTo(u, input, pos, ts, end) <==>
              if ts == [] then pos == end
              else Lex(u, input, pos).token == ts[0] && LexesTo(u, input, Lex(u, input, pos).pos, ts[1..], end)
  {
  }

  /** A good token of a text, with spaces in front and nothing behind that continues it, is handed out. */
  lemma GoodTokenIsRead(u: Unicode, input: string, pos: nat, t: Token, end: nat)
    requires pos + |t.value| <= end <= |input| && GoodToken(u, t) && Sane(u)
    requires input[end - |t.value|..end] == t.value && Stops(u, t.kind, input[end..])
    requires forall j :: pos <= j < end - |t.value| ==> u.isSpace(input[j])
    ensures Lex(u, input, pos) == Lexed(t, end)
  {
    hide IsReserved, IsKeyword, Lex, IsSymbol, IsOperator;
    var start := end - |t.value|;
    assert input[start] == t.value[0] && t.value[0] in t.value;
    forall c: char ensures (IsOperator(c) <==> c in {'<', '>', '='}) && (IsSymbol(c) <==> c in {'(', ')', ',', ';', '*'}) { SymbolsAre(c); }
    OneCharacter(t.value[0]);
    assert t.kind == SYMBOL ==> t.value == [t.value[0]];
    assert end < |input| ==> input[end..][0] == input[end];
    assert TokenAt(u, input, pos, t, end);
    TokenIsLex(u, input, pos, t, end);
  }

  /** What follows a token in a layout does not continue it. */
  lemma LayoutStops(u: Unicode, gaps: seq<string>, ts: seq<Token>, rest: string)
    requires Sane(u) && |ts| > 1 && Layout(u, gaps, ts) && AllGood(u, ts)
    ensures Stops(u, ts[0].kind, Spell(gaps[1..], ts[1..]) + rest)
  {
    hide IsReserved, IsKeyword, Spell;
    var t, gap := ts[1], gaps[1];
    var more := Spell(gaps[2..], ts[2..]);
    assert Spell(gaps[1..], ts[1..]) == gap + t.value + more by { SpellStep(gaps[1..], ts[1..]); }
    assert t in ts && t.value[0] in t.value;
    var all := Spell(gaps[1..], ts[1..]) + rest;
    var c := all[0];
    assert all != "" && gap + t.value + more + rest == all;
    if gap != "" {
      assert c == gap[0] && gap[0] in gap && u.isSpace(c);
    } else {
      assert c == t.value[0];
      SymbolsAre(c);
      OneCharacter(c);
      assert t.kind == SYMBOL ==> t.value == [c];
    }
  }

  lemma SpellStep(gaps: seq<string>, ts: seq<Token>)
    requires |gaps| == |ts| && ts != []
    ensures Spell(gaps, ts) == gaps[0] + ts[0].value + Spell(gaps[1..], ts[1..])
    ensures |ts| > 1 ==> gaps[1..][1..] == gaps[2..] && ts[1..][1..] == ts[2..]
  {
  }

  lemma LayoutTail(u: Unicode, gaps: seq<string>, ts: seq<Token>)
    requires Layout(u, gaps, ts) && ts != []
    ensures Layout(u, gaps[1..], ts[1..])
    ensures AllGood(u, ts) ==> AllGood(u, ts[1..]) && GoodToken(u, ts[0])
  {
    forall t | t in ts[1..] ensures t in ts {}
    assert ts[0] in ts;
  }

  /** Whatever tokens are spelled in whatever layout are read back in order. */
  lemma {:induction false} LayoutIsRead(u: Unicode, input: string, pos: nat, gaps: seq<string>, ts: seq<Token>)
    requires Sane(u) && Layout(u, gaps, ts) && AllGood(u, ts) && pos + |Spell(gaps, ts)| <= |input|
    requires input[pos..pos + |Spell(gaps, ts)|] == Spell(gaps, ts)
    requires ts != [] ==> Stops(u, ts[|ts| - 1].kind, input[pos + |Spell(gaps, ts)|..])
    ensures LexesTo(u, input, pos, ts, pos + |Spell(gaps, ts)|)
    decreases |ts|
  {
    hide Sane, GoodToken, Stops, Lex, NeedsSpace, LexesTo, Spell;
    var end := pos + |Spell(gaps, ts)|;
    if ts == [] {
      SpellNothing(gaps);
    } else {
      SpellStep(gaps, ts);
      var more := Spell(gaps[1..], ts[1..]);
      var next := pos + |gaps[0]| + |ts[0].value|;
      Pieces(input, pos, gaps[0], ts[0].value, more, input[end..]);
      LayoutTail(u, gaps, ts);
      LayoutGap(u, gaps, ts, input, pos);
      if |ts| > 1 {
        LayoutStops(u, gaps, ts, input[end..]);
      } else {
        SpellNothing(gaps[1..]);
        assert input[next..] == input[end..];
      }
      GoodTokenIsRead(u, input, pos, ts[0], next);
      LayoutIsRead(u, input, next, gaps[1..], ts[1..]);
    }
    LexesStep(u, input, pos, ts, end);
  }

  /** Where the pieces of the text lie. */
  lemma Pieces(input: string, pos: nat, gap: string, val: string, more: string, rest: string)
    requires pos + |gap + val + more| <= |input| && input[pos..pos + |gap + val + more|] == gap + val + more
    requires rest == input[pos + |gap + val + more|..]
    ensures var mid, next := pos + |gap|, pos + |gap| + |val|;
            && input[pos..mid] == gap && input[mid..next] == val && input[next..] == more + rest
            && input[next..next + |more|] == more
  {
    var part := gap + val + more;
    assert input[pos..] == part + rest;
    var k := |gap| + |val|;
    assert part[..|gap|] == gap && part[|gap|..k] == val && part[k..] == more;
    SliceOf(input, pos, 0, |gap|);
    SliceOf(input, pos, |gap|, k);
    SliceOf(input, pos, k, |part|);
    assert input[pos + k..] == input[pos..][k..];
    assert (part + rest)[|gap|..k] == part[|gap|..k] && (part + rest)[k..|part|] == more;
  }

  lemma SliceOf(input: string, pos: nat, k: nat, l: nat)
    requires k <= l && pos + l <= |input|
    ensures input[pos + k..pos + l] == input[pos..][k..l]
  {
    assert forall j :: 0 <= j < l - k ==> input[pos + k..pos + l][j] == input[pos..][k..l][j];
  }

  lemma SpellNothing(gaps: seq<string>)
    requires gaps == []
    ensures Spell(gaps, []) == ""
  {
  }

  lemma LayoutGap(u: Unicode, gaps: seq<string>, ts: seq<Token>, input: string, pos: nat)
    requires Layout(u, gaps, ts) && ts != [] && pos + |gaps[0]| <= |input| && input[pos..pos + |gaps[0]|] == gaps[0]
    ensures forall j :: pos <= j < pos + |gaps[0]| ==> u.isSpace(input[j])
  {
    forall j | pos <= j < pos + |gaps[0]| ensures u.isSpace(input[j]) {
      assert input[j] == gaps[0][j - pos] && gaps[0][j - pos] in gaps[0];
    }
  }

  /** A token handed out is good, unless it is the end or an empty identifier; these come again. */
  lemma ReadTokenIsGood(u: Unicode, input: string, pos: nat)
    requires pos <= |input|
    ensures var r := Lex(u, input, pos);
            || (GoodToken(u, r.token) && Stops(u, r.token.kind, input[r.pos..]))
            || (Lex(u, input, r.pos) == r && r.token.value == "")
  {
    hide IsReserved, IsKeyword, IsSymbol, IsOperator, IsWord;
    var r := Lex(u, input, pos);
    LexIsToken(u, input, pos);
    StuckExactly(u, input, pos);
    WordIs(u);
    forall c: char ensures IsOperator(c) <==> c in {'<', '>', '='} { SymbolsAre(c); }
    if r.token.kind == EOF {
      assert Scan(u.isSpace, input, r.pos) == |input|;
    }
  }

  lemma WordIs(u: Unicode)
    ensures forall c: char :: IsWord(u, c) <==> u.isDigit(c) || u.isLetter(c)
  {
  }

  /** So what is read up to a token that holds something is good. */
  lemma {:induction false} ReadIsGood(u: Unicode, input: string, pos: nat, ts: seq<Token>, end: nat)
    requires pos <= |input| && ts != [] && ts[|ts| - 1].value != "" && LexesTo(u, input, pos, ts, end)
    ensures AllGood(u, ts) && end <= |input| && Stops(u, ts[|ts| - 1].kind, input[end..])
    decreases |ts|
  {
    hide GoodToken, Lex, Stops;
    var r := Lex(u, input, pos);
    ReadTokenIsGood(u, input, pos);
    if |ts| > 1 {
      ReadIsGood(u, input, r.pos, ts[1..], end);
      assert ts[1..][0] in ts[1..] && ts[1..][0] == ts[1];
      assert ts[1] == Lex(u, input, r.pos).token;
      GoodHasValue(u, ts[1]);
    }
    forall t | t in ts ensures GoodToken(u, t) {
      if t != ts[0] { assert t in ts[1..]; }
    }
  }

  lemma GoodHasValue(u: Unicode, t: Token)
    requires GoodToken(u, t)
    ensures t.value != ""
  {
  }

  /** And it was spelled in some layout. */
  lemma {:induction false} ReadIsLayout(u: Unicode, input: string, pos: nat, ts: seq<Token>, end: nat) returns (gaps: seq<string>)
    requires pos <= |input| && AllGood(u, ts) && LexesTo(u, input, pos, ts, end)
    ensures Layout(u, gaps, ts) && pos <= end <= |input| && input[pos..end] == Spell(gaps, ts)
    ensures ts != [] ==> |gaps[0]| + |ts[0].value| == Lex(u, input, pos).pos - pos
    decreases |ts|
  {
    hide GoodToken, Lex, IsReserved, NeedsSpace;
    if ts == [] { return []; }
    var r := Lex(u, input, pos);
    assert ts[0] in ts;
    forall t | t in ts[1..] ensures t in ts {}
    var more := ReadIsLayout(u, input, r.pos, ts[1..], end);
    LexIsToken(u, input, pos);
    var start := r.pos - |ts[0].value|;
    gaps := [input[pos..start]] + more;
    assert input[pos..end] == input[pos..start] + input[start..r.pos] + input[r.pos..end];
    if |ts| > 1 {
      LexIsToken(u, input, r.pos);
      assert ts[1] in ts && ts[1] == ts[1..][0];
      ApartOrSpaced(u, input, pos, r.pos, ts[0], ts[1], Lex(u, input, r.pos).pos);
    }
    LayoutCons(u, input[pos..start], ts[0], more, ts[1..]);
  }

  lemma LayoutCons(u: Unicode, gap: string, t: Token, gaps: seq<string>, ts: seq<Token>)
    requires Layout(u, gaps, ts) && forall c <- gap :: u.isSpace(c)
    requires ts != [] && gaps[0] == "" ==> !NeedsSpace(t, ts[0])
    ensures Layout(u, [gap] + gaps, [t] + ts)
    ensures Spell([gap] + gaps, [t] + ts) == gap + t.value + Spell(gaps, ts)
  {
    hide NeedsSpace;
    assert ([gap] + gaps)[1..] == gaps && ([t] + ts)[1..] == ts;
    forall i | 1 <= i < |[gap] + gaps| && ([gap] + gaps)[i] == "" ensures !NeedsSpace(([t] + ts)[i - 1], ([t] + ts)[i]) {
      assert ([gap] + gaps)[i] == gaps[i - 1];
      assert i > 1 ==> !NeedsSpace(ts[i - 2], ts[i - 1]);
    }
  }

  lemma ApartOrSpaced(u: Unicode, input: string, pos: nat, mid: nat, a: Token, b: Token, end: nat)
    requires GoodToken(u, a) && GoodToken(u, b) && TokenAt(u, input, pos, a, mid) && TokenAt(u, input, mid, b, end)
    ensures NeedsSpace(a, b) ==> mid < end - |b.value|
  {
    hide IsReserved;
    assert b.value[0] in b.value;
    if mid == end - |b.value| {
      assert input[mid] == b.value[0];
      SymbolsAre(input[mid]);
    }
  }

  /** Up to end the text spells ts in some layout, and what follows does not continue the last token. */
  ghost predicate Spelled(u: Unicode, input: string, ts: seq<Token>, end: nat)
    requires ts != []
  {
    && end <= |input| && AllGood(u, ts) && Stops(u, ts[|ts| - 1].kind, input[end..])
    && exists gaps :: Layout(u, gaps, ts) && input[..end] == Spell(gaps, ts)
  }

  /** To be read and to be spelled is the same, up to any token that holds something. */
  lemma ReadExactly(u: Unicode, input: string, ts: seq<Token>, end: nat)
    requires Sane(u) && ts != [] && ts[|ts| - 1].value != ""
    ensures LexesTo(u, input, 0, ts, end) <==> Spelled(u, input, ts, end)
  {
    hide Sane, AllGood, NeedsSpace, Stops, Lex, LexesTo, Spell;
    if Spelled(u, input, ts, end) {
      var gaps :| Layout(u, gaps, ts) && input[..end] == Spell(gaps, ts);
      assert input[0..end] == input[..end];
      LayoutIsRead(u, input, 0, gaps, ts);
    }
    if LexesTo(u, input, 0, ts, end) {
      ReadIsGood(u, input, 0, ts, end);
      var gaps := ReadIsLayout(u, input, 0, ts, end);
      assert input[0..end] == input[..end];
    }
  }

  /** One space in front of every token is a layout, and so is none in front of a symbol. */
  lemma PlainLayout(u: Unicode, ts: seq<Token>)
    requires u.isSpace(' ')
    ensures Layout(u, seq(|ts|, i requires 0 <= i < |ts| => if ts[i].kind == SYMBOL then "" else " "), ts)
  {
  }
}
