/** Query conditions and index choice (db/select.go): which rows a SELECT asks for, which index the
    planner takes, and which rows that index path keeps. */
module Planner {
  import opened Bytes
  import opened Catalog
  import opened TableKeys
  import opened Tables

  datatype Condition = Condition(column: Bytes, op: Bytes, value: Bytes)

  const EQ: Bytes := [61]
  const LT: Bytes := [60]
  const LTE: Bytes := [60, 61]
  const GT: Bytes := [62]
  const GTE: Bytes := [62, 61]

  /* ---------- What a condition means ---------- */

  /** isQueryConditionApplicable; None for an operator it does not support. */
  function Applies(op: Bytes, a: Bytes, b: Bytes): Option<bool> {
    if op == EQ then Some(a == b)
    else if op == LT then Some(Less(a, b))
    else if op == LTE then Some(AtMost(a, b))
    else if op == GT then Some(Less(b, a))
    else if op == GTE then Some(AtMost(b, a))
    else None
  }

  predicate Supported(op: Bytes) {
    op == EQ || op == LT || op == LTE || op == GT || op == GTE
  }

  /** The five operators as they are written, over the order of byte strings. */
  lemma AppliesExactly(a: Bytes, b: Bytes)
    ensures Applies([61], a, b) == Some(a == b)
    ensures Applies([60], a, b) == Some(Precedes(a, b))
    ensures Applies([60, 61], a, b) == Some(a == b || Precedes(a, b))
    ensures Applies([62], a, b) == Some(Precedes(b, a))
    ensures Applies([62, 61], a, b) == Some(a == b || Precedes(b, a))
    ensures forall op :: op !in {[61], [60], [60, 61], [62], [62, 61]} ==> Applies(op, a, b).None?
  {
    LessExactly(a, b);
    LessExactly(b, a);
  }

  /** Exactly one of <, = and > holds, and <= is the opposite of >, as >= is of <. */
  lemma OneOfThree(a: Bytes, b: Bytes)
    ensures Applies([60, 61], a, b) != Applies([62], a, b)
    ensures Applies([62, 61], a, b) != Applies([60], a, b)
    ensures a == b ==> !Precedes(a, b) && !Precedes(b, a)
    ensures a != b ==> (Precedes(a, b) <==> !Precedes(b, a))
  {
    AppliesExactly(a, b);
    LessExactly(a, b);
    LessExactly(b, a);
    LessTotal(a, b);
    LessIrreflexive(a);
    if Less(a, b) { LessAsymmetric(a, b); }
    if Less(b, a) { LessAsymmetric(b, a); }
  }

  /** getColPositionFromColName: the first column of that name. */
  function Position(columns: seq<Column>, name: Bytes): (p: Option<nat>)
    ensures p.None? <==> forall i :: 0 <= i < |columns| ==> columns[i].name != name
    ensures p.Some? ==> p.value < |columns| && columns[p.value].name == name && forall i :: 0 <= i < p.value ==> columns[i].name != name
  {
    if columns == [] then None
    else if columns[0].name == name then Some(0)
    else
      var p := Position(columns[1..], name);
      assert forall i :: 1 <= i < |columns| ==> columns[i] == columns[1..][i - 1];
      if p.None? then None else Some(p.value + 1)
  }

  ghost predicate Holds(t: Table, row: Row, c: Condition) {
    && |row| == |t.columns|
    && var p := Position(t.columns, c.column);
       p.Some? && Applies(c.op, row[p.value], c.value) == Some(true)
  }

  /** Every name is a column and every operator is one the filter knows. */
  ghost predicate Meaningful(t: Table, cs: seq<Condition>) {
    forall i :: 0 <= i < |cs| ==> Position(t.columns, cs[i].column).Some? && Supported(cs[i].op)
  }

  ghost predicate Matches(t: Table, row: Row, cs: seq<Condition>) {
    forall i :: 0 <= i < |cs| ==> Holds(t, row, cs[i])
  }

  /* ---------- Choosing an index ---------- */

  predicate Mentions(cs: seq<Condition>, name: Bytes) {
    exists i :: 0 <= i < |cs| && cs[i].column == name
  }

  /** The longest stretch of leading index columns that all occur in the query. */
  function Covered(names: seq<Bytes>, cs: seq<Condition>): (r: seq<Bytes>)
    ensures r <= names && forall i :: 0 <= i < |r| ==> Mentions(cs, r[i])
    ensures |r| < |names| ==> !Mentions(cs, names[|r|])
    ensures forall n <- r :: exists c <- cs :: c.column == n
    ensures |r| < |names| ==> forall c <- cs :: c.column != names[|r|]
  {
    if names == [] || !Mentions(cs, names[0]) then []
    else
      var rest := Covered(names[1..], cs);
      assert names == [names[0]] + names[1..];
      [names[0]] + rest
  }

  datatype Choice = Choice(index: Index, covered: seq<Bytes>)

  predicate Full(c: Choice) {
    |c.index.columns| == |c.covered|
  }

  /** getSecondaryIndexForQueryIfApplicable: the first fully covered index wins at once, otherwise
      the last one with any column covered. */
  /** A usable index is fully covered exactly if the query has a condition on each of its columns. */
  lemma FullExactly(c: Choice, cs: seq<Condition>)
    requires c.covered == Covered(c.index.columns, cs)
    ensures Full(c) <==> forall n <- c.index.columns :: exists cond <- cs :: cond.column == n
  {
    var n := |c.covered|;
    if n < |c.index.columns| {
      assert c.index.columns[n] in c.index.columns;
    } else {
      assert c.covered == c.index.columns;
    }
  }

  function Choose(ixs: seq<Index>, cs: seq<Condition>, best: Option<Choice>): Option<Choice> {
    if ixs == [] then best
    else
      var covered := Covered(ixs[0].columns, cs);
      if covered == [] then Choose(ixs[1..], cs, best)
      else if |covered| == |ixs[0].columns| then Some(Choice(ixs[0], covered))
      else Choose(ixs[1..], cs, Some(Choice(ixs[0], covered)))
  }

  ghost predicate Usable(ixs: seq<Index>, cs: seq<Condition>, c: Choice) {
    c.index in ixs && c.covered != [] && c.covered == Covered(c.index.columns, cs)
  }

  /** Index i is fully covered. */
  ghost predicate FullAt(ixs: seq<Index>, cs: seq<Condition>, i: nat) {
    i < |ixs| && ixs[i].columns != [] && Covered(ixs[i].columns, cs) == ixs[i].columns
  }

  lemma {:induction false} FirstFullWins(ixs: seq<Index>, cs: seq<Condition>, best: Option<Choice>, i: nat)
    requires FullAt(ixs, cs, i) && forall j: nat :: j < i ==> !FullAt(ixs, cs, j)
    ensures Choose(ixs, cs, best) == Some(Choice(ixs[i], ixs[i].columns))
  {
    hide Covered;
    if i > 0 {
      var tail, covered := ixs[1..], Covered(ixs[0].columns, cs);
      assert !FullAt(ixs, cs, 0);
      forall j: nat | j < i - 1 ensures !FullAt(tail, cs, j) { assert !FullAt(ixs, cs, j + 1); }
      CoveredWhole(ixs[0].columns, cs);
      FirstFullWins(tail, cs, if covered == [] then best else Some(Choice(ixs[0], covered)), i - 1);
    }
  }

  lemma CoveredWhole(names: seq<Bytes>, cs: seq<Condition>)
    ensures |Covered(names, cs)| == |names| <==> Covered(names, cs) == names
  {
  }

  /** Without a fully covered index the last one with a covered column wins. */
  lemma {:induction false} LastPartialWins(ixs: seq<Index>, cs: seq<Condition>, best: Option<Choice>, i: nat)
    requires forall j: nat :: !FullAt(ixs, cs, j)
    requires i < |ixs| && Covered(ixs[i].columns, cs) != []
    requires forall j :: i < j < |ixs| ==> Covered(ixs[j].columns, cs) == []
    ensures Choose(ixs, cs, best) == Some(Choice(ixs[i], Covered(ixs[i].columns, cs)))
  {
    hide Covered;
    var tail, covered := ixs[1..], Covered(ixs[0].columns, cs);
    CoveredWhole(ixs[0].columns, cs);
    assert !FullAt(ixs, cs, 0);
    forall j: nat ensures !FullAt(tail, cs, j) { assert !FullAt(ixs, cs, j + 1); }
    if i == 0 {
      NothingCovered(tail, cs, Some(Choice(ixs[0], covered)));
    } else {
      LastPartialWins(tail, cs, if covered == [] then best else Some(Choice(ixs[0], covered)), i - 1);
    }
  }

  lemma {:induction false} NothingCovered(ixs: seq<Index>, cs: seq<Condition>, best: Option<Choice>)
    requires forall j :: 0 <= j < |ixs| ==> Covered(ixs[j].columns, cs) == []
    ensures Choose(ixs, cs, best) == best
  {
    hide Covered;
    if ixs == [] {
    } else {
      NothingCovered(ixs[1..], cs, best);
    }
  }

  lemma {:induction false} ChoiceIsUsable(ixs: seq<Index>, cs: seq<Condition>, best: Option<Choice>)
    ensures var c := Choose(ixs, cs, best); c == best || (c.Some? && Usable(ixs, cs, c.value))
  {
    hide Covered;
    if ixs == [] {
    } else {
      var covered := Covered(ixs[0].columns, cs);
      ChoiceIsUsable(ixs[1..], cs, if covered == [] then best else Some(Choice(ixs[0], covered)));
    }
  }

  /* ---------- Which rows the index path keeps ---------- */

  /** The values of all conditions on one column, whatever their operators. */
  function ValuesFor(name: Bytes, cs: seq<Condition>): seq<Bytes> {
    if cs == [] then []
    else (if cs[0].column == name then [cs[0].value] else []) + ValuesFor(name, cs[1..])
  }

  function CoveredValues(covered: seq<Bytes>, cs: seq<Condition>): seq<Bytes> {
    if covered == [] then [] else ValuesFor(covered[0], cs) + CoveredValues(covered[1..], cs)
  }

  /** The row's index entry starts with the query's values. */
  predicate Selected(t: Table, c: Choice, cs: seq<Condition>, row: Row) {
    |row| == |t.columns| && CoveredValues(c.covered, cs) <= IndexValues(c.index.columns, t.columns, row)
  }

  /** Conditions on covered columns are not filtered again. */
  ghost predicate Filtered(t: Table, row: Row, cs: seq<Condition>, covered: seq<Bytes>) {
    forall i :: 0 <= i < |cs| && cs[i].column !in covered ==> Holds(t, row, cs[i])
  }

  /** Exactly the rows the index path returns. */
  ghost predicate IndexKeeps(t: Table, c: Choice, cs: seq<Condition>, row: Row) {
    Selected(t, c, cs, row) && (Full(c) || Filtered(t, row, cs, c.covered))
  }

  /* ---------- When the two plans agree ---------- */

  /** What a caller can check before the query runs: every condition on a covered column is the only
      one on it and an equality, and a fully covered index leaves no condition outside. */
  ghost predicate PlanSafe(c: Choice, cs: seq<Condition>) {
    && (forall i :: 0 <= i < |cs| && cs[i].column in c.covered ==> cs[i].op == EQ)
    && (forall i, j :: 0 <= i < j < |cs| && cs[i].column in c.covered ==> cs[i].column != cs[j].column)
    && (Full(c) ==> forall i :: 0 <= i < |cs| ==> cs[i].column in c.covered)
  }

  lemma {:induction false} NoValuesFor(name: Bytes, cs: seq<Condition>)
    requires forall i :: 0 <= i < |cs| ==> cs[i].column != name
    ensures ValuesFor(name, cs) == []
  {
    if cs == [] {
    } else {
      NoValuesFor(name, cs[1..]);
    }
  }

  lemma {:induction false} OneValueFor(name: Bytes, cs: seq<Condition>, n: nat)
    requires n < |cs| && cs[n].column == name
    requires forall i :: 0 <= i < |cs| && i != n ==> cs[i].column != name
    ensures ValuesFor(name, cs) == [cs[n].value]
  {
    if n == 0 {
      NoValuesFor(name, cs[1..]);
    } else {
      OneValueFor(name, cs[1..], n - 1);
    }
  }

  /** In order: the values for the first covered column, in the order of the conditions, then those for
      the next. */
  lemma {:induction false} ValuesInOrder(name: Bytes, cs: seq<Condition>, c: Condition)
    ensures ValuesFor(name, cs + [c]) == ValuesFor(name, cs) + if c.column == name then [c.value] else []
    ensures ValuesFor(name, []) == []
    decreases |cs|
  {
    if cs == [] {
      assert cs + [c] == [c] && [c][1..] == [];
    } else {
      assert (cs + [c])[1..] == cs[1..] + [c];
      ValuesInOrder(name, cs[1..], c);
    }
  }

  lemma {:induction false} CoveredInOrder(covered: seq<Bytes>, name: Bytes, cs: seq<Condition>)
    ensures CoveredValues(covered + [name], cs) == CoveredValues(covered, cs) + ValuesFor(name, cs)
    ensures CoveredValues([], cs) == []
    decreases |covered|
  {
    hide ValuesFor;
    if covered == [] {
      assert covered + [name] == [name] && [name][1..] == [];
    } else {
      assert (covered + [name])[1..] == covered[1..] + [name];
      CoveredInOrder(covered[1..], name, cs);
    }
  }

  /** With one condition per covered column the scanned values line up with the covered columns. */
  lemma {:induction false} CoveredValuesAre(covered: seq<Bytes>, cs: seq<Condition>)
    requires forall k :: 0 <= k < |covered| ==> Mentions(cs, covered[k])
    requires forall i, j :: 0 <= i < j < |cs| && cs[i].column in covered ==> cs[i].column != cs[j].column
    ensures |CoveredValues(covered, cs)| == |covered|
    ensures forall k, i :: 0 <= k < |covered| && 0 <= i < |cs| && cs[i].column == covered[k]
              ==> CoveredValues(covered, cs)[k] == cs[i].value
  {
    hide CoveredValues;
    if covered == [] {
      NoneCovered(cs);
    } else {
      var rest := covered[1..];
      var n := FirstCovered(covered, cs);
      forall k | 0 <= k < |rest| ensures Mentions(cs, rest[k]) { assert rest[k] == covered[k + 1]; }
      assert forall x :: x in rest ==> x in covered;
      CoveredValuesAre(rest, cs);
      forall k, i | 0 <= k < |covered| && 0 <= i < |cs| && cs[i].column == covered[k]
        ensures CoveredValues(covered, cs)[k] == cs[i].value
      {
        if k > 0 { assert covered[k] == rest[k - 1]; }
      }
    }
  }

  lemma NoneCovered(cs: seq<Condition>)
    ensures CoveredValues([], cs) == []
  {
  }

  /** The one condition on the first covered column supplies the first value. */
  lemma FirstCovered(covered: seq<Bytes>, cs: seq<Condition>) returns (n: nat)
    requires covered != [] && Mentions(cs, covered[0])
    requires forall i, j :: 0 <= i < j < |cs| && cs[i].column in covered ==> cs[i].column != cs[j].column
    ensures n < |cs| && forall i :: 0 <= i < |cs| ==> (cs[i].column == covered[0] <==> i == n)
    ensures CoveredValues(covered, cs) == [cs[n].value] + CoveredValues(covered[1..], cs)
  {
    n :| 0 <= n < |cs| && cs[n].column == covered[0];
    assert covered[0] in covered;
    OneValueFor(covered[0], cs, n);
  }

  lemma PositionOf(t: Table, name: Bytes, p: nat)
    requires Catalog.DistinctNames(t.columns) && p < |t.columns| && t.columns[p].name == name
    ensures Position(t.columns, name) == Some(p)
  {
  }

  lemma KnownAt(t: Table, names: seq<Bytes>, k: nat) returns (p: nat)
    requires Catalog.DistinctNames(t.columns) && Known(names, t.columns) && k < |names|
    ensures p < |t.columns| && t.columns[p].name == names[k] && Position(t.columns, names[k]) == Some(p)
  {
    var name := names[k];
    var col :| col in t.columns && col.name == name;
    p :| 0 <= p < |t.columns| && t.columns[p].name == name;
    PositionOf(t, name, p);
  }

  /** At most one condition on each covered column. */
  ghost predicate OnePerCovered(c: Choice, cs: seq<Condition>) {
    forall i, j :: 0 <= i < j < |cs| && cs[i].column in c.covered ==> cs[i].column != cs[j].column
  }

  /** The row has the condition's value in the condition's column, whatever the operator. */
  ghost predicate HasValue(t: Table, row: Row, c: Condition) {
    && |row| == |t.columns|
    && var p := Position(t.columns, c.column);
       p.Some? && row[p.value] == c.value
  }

  /** With one condition per covered column the scan of the index asks for their values, and for nothing else. */
  lemma SelectedExactly(t: Table, c: Choice, cs: seq<Condition>, row: Row)
    requires |row| == |t.columns| && Catalog.DistinctNames(t.columns) && Known(c.index.columns, t.columns)
    requires c.covered == Covered(c.index.columns, cs) && OnePerCovered(c, cs)
    ensures Selected(t, c, cs, row) <==> forall i :: 0 <= i < |cs| && cs[i].column in c.covered ==> HasValue(t, row, cs[i])
  {
    hide IndexValues, CoveredValues, Known, HasValue, OnePerCovered, Covered;
    var want, have := CoveredValues(c.covered, cs), IndexValues(c.index.columns, t.columns, row);
    CoveredSizes(t, c, cs, row);
    if Selected(t, c, cs, row) {
      forall i | 0 <= i < |cs| && cs[i].column in c.covered ensures HasValue(t, row, cs[i]) {
        var k :| 0 <= k < |c.covered| && c.covered[k] == cs[i].column;
        ConditionAt(t, c, cs, row, i, k);
      }
    }
    if forall i :: 0 <= i < |cs| && cs[i].column in c.covered ==> HasValue(t, row, cs[i]) {
      forall k | 0 <= k < |want| ensures want[k] == have[k] {
        assert Mentions(cs, c.covered[k]);
        var i :| 0 <= i < |cs| && cs[i].column == c.covered[k];
        ConditionAt(t, c, cs, row, i, k);
      }
    }
  }

  lemma CoveredSizes(t: Table, c: Choice, cs: seq<Condition>, row: Row)
    requires |row| == |t.columns| && Catalog.DistinctNames(t.columns) && Known(c.index.columns, t.columns)
    requires c.covered == Covered(c.index.columns, cs) && OnePerCovered(c, cs)
    ensures |CoveredValues(c.covered, cs)| == |c.covered| <= |IndexValues(c.index.columns, t.columns, row)|
    ensures forall k :: 0 <= k < |c.covered| ==> Mentions(cs, c.covered[k])
  {
    CoveredValuesAre(c.covered, cs);
    IndexValuesAre(c.index.columns, t.columns, row);
  }

  lemma ConditionAt(t: Table, c: Choice, cs: seq<Condition>, row: Row, i: nat, k: nat)
    requires |row| == |t.columns| && Catalog.DistinctNames(t.columns) && Known(c.index.columns, t.columns)
    requires c.covered == Covered(c.index.columns, cs) && OnePerCovered(c, cs)
    requires i < |cs| && k < |c.covered| && c.covered[k] == cs[i].column
    ensures |IndexValues(c.index.columns, t.columns, row)| == |c.index.columns|
    ensures |CoveredValues(c.covered, cs)| == |c.covered|
    ensures HasValue(t, row, cs[i]) <==> IndexValues(c.index.columns, t.columns, row)[k] == CoveredValues(c.covered, cs)[k]
  {
    hide IndexValues, CoveredValues;
    CoveredValuesAre(c.covered, cs);
    IndexValuesAre(c.index.columns, t.columns, row);
    assert cs[i].column in c.covered;
    assert c.index.columns[k] == c.covered[k];
    var p := KnownAt(t, c.index.columns, k);
  }

  /** The index path keeps exactly the rows that meet the query. */
  lemma PlansAgree(t: Table, c: Choice, cs: seq<Condition>, row: Row)
    requires |row| == |t.columns| && Catalog.DistinctNames(t.columns) && Known(c.index.columns, t.columns)
    requires c.covered == Covered(c.index.columns, cs) && PlanSafe(c, cs)
    ensures IndexKeeps(t, c, cs, row) <==> Matches(t, row, cs)
  {
    SelectedExactly(t, c, cs, row);
    forall i | 0 <= i < |cs| && cs[i].column in c.covered ensures HasValue(t, row, cs[i]) <==> Holds(t, row, cs[i]) {}
  }

  /* ---------- Unsafe plans change the answer ---------- */

  ghost predicate OnePerColumn(cs: seq<Condition>) {
    forall i, j :: 0 <= i < j < |cs| ==> cs[i].column != cs[j].column
  }

  ghost predicate NoEmptyValue(cs: seq<Condition>) {
    forall i :: 0 <= i < |cs| ==> cs[i].value != []
  }

  /** A text that meets the condition, and is not its value unless the condition is an equality. */
  function Meeting(c: Condition): Bytes {
    if c.op == EQ then c.value else if c.op == LT || c.op == LTE then [] else c.value + [0]
  }

  /** A text that fails the condition. */
  function Failing(c: Condition): Bytes {
    if c.op == EQ || c.op == LTE then c.value + [0] else if c.op == GTE then [] else c.value
  }

  lemma MeetingAndFailing(c: Condition)
    requires Supported(c.op) && c.value != []
    ensures Applies(c.op, Meeting(c), c.value) == Some(true)
    ensures Applies(c.op, Failing(c), c.value) == Some(false)
    ensures Meeting(c) == c.value <==> c.op == EQ
  {
    var v := c.value;
    PrefixAtMost(v, v + [0]);
    LessAsymmetric(v, v + [0]);
    LessIrreflexive(v);
  }

  function ConditionOn(cs: seq<Condition>, name: Bytes): (i: Option<nat>)
    ensures i.Some? ==> i.value < |cs| && cs[i.value].column == name
    ensures i.None? ==> forall j :: 0 <= j < |cs| ==> cs[j].column != name
  {
    if cs == [] then None
    else if cs[0].column == name then Some(0)
    else
      var i := ConditionOn(cs[1..], name);
      assert forall j :: 1 <= j < |cs| ==> cs[j] == cs[1..][j - 1];
      if i.None? then None else Some(i.value + 1)
  }

  /** The text of a column: it meets its condition, or fails it if it is condition number bad. */
  function TextFor(cs: seq<Condition>, bad: nat, name: Bytes): Bytes {
    var i := ConditionOn(cs, name);
    if i.None? then [1] else if i.value == bad then Failing(cs[i.value]) else Meeting(cs[i.value])
  }

  function WitnessRow(t: Table, cs: seq<Condition>, bad: nat): (row: Row)
    ensures |row| == |t.columns|
    ensures forall p :: 0 <= p < |row| ==> row[p] == TextFor(cs, bad, t.columns[p].name)
  {
    seq(|t.columns|, p requires 0 <= p < |t.columns| => TextFor(cs, bad, t.columns[p].name))
  }

  lemma WitnessMeets(t: Table, cs: seq<Condition>, bad: nat, i: nat)
    requires Meaningful(t, cs) && OnePerColumn(cs) && NoEmptyValue(cs) && i < |cs|
    ensures Holds(t, WitnessRow(t, cs, bad), cs[i]) <==> i != bad
    ensures i != bad ==> (HasValue(t, WitnessRow(t, cs, bad), cs[i]) <==> cs[i].op == EQ)
  {
    MeetingAndFailing(cs[i]);
    var p := Position(t.columns, cs[i].column).value;
    assert ConditionOn(cs, cs[i].column) == Some(i);
    assert WitnessRow(t, cs, bad)[p] == TextFor(cs, bad, cs[i].column);
  }

  /** Every condition of the query that the plan does not honour is visible in some row. */
  lemma UnsafeWitness(t: Table, c: Choice, cs: seq<Condition>) returns (bad: nat)
    requires Catalog.DistinctNames(t.columns) && Known(c.index.columns, t.columns) && c.covered == Covered(c.index.columns, cs)
    requires Meaningful(t, cs) && OnePerColumn(cs) && NoEmptyValue(cs) && !PlanSafe(c, cs)
    ensures var row := WitnessRow(t, cs, bad); !(IndexKeeps(t, c, cs, row) <==> Matches(t, row, cs))
  {
    hide Selected, Holds, HasValue, WitnessRow, Meaningful, Known;
    if i :| 0 <= i < |cs| && cs[i].column in c.covered && cs[i].op != EQ {
      bad := |cs|;
      forall j | 0 <= j < |cs| ensures Holds(t, WitnessRow(t, cs, bad), cs[j]) { WitnessMeets(t, cs, bad, j); }
      WitnessMeets(t, cs, bad, i);
      SelectedExactly(t, c, cs, WitnessRow(t, cs, bad));
    } else {
      bad :| 0 <= bad < |cs| && cs[bad].column !in c.covered;
      WitnessMeets(t, cs, bad, bad);
      forall j | 0 <= j < |cs| && cs[j].column in c.covered ensures HasValue(t, WitnessRow(t, cs, bad), cs[j]) {
        WitnessMeets(t, cs, bad, j);
      }
      SelectedExactly(t, c, cs, WitnessRow(t, cs, bad));
    }
  }

  /** The exact condition: with one condition per column, known names and operators and non-empty
      values, the index plan agrees with the filter on all rows exactly if it is safe. */
  lemma PlanSafeExactly(t: Table, c: Choice, cs: seq<Condition>)
    requires Catalog.DistinctNames(t.columns) && Known(c.index.columns, t.columns) && c.covered == Covered(c.index.columns, cs)
    requires Meaningful(t, cs) && OnePerColumn(cs) && NoEmptyValue(cs)
    ensures (forall row :: |row| == |t.columns| ==> (IndexKeeps(t, c, cs, row) <==> Matches(t, row, cs))) <==> PlanSafe(c, cs)
  {
    hide IndexKeeps, Matches, PlanSafe;
    if PlanSafe(c, cs) {
      forall row | |row| == |t.columns| ensures IndexKeeps(t, c, cs, row) <==> Matches(t, row, cs) { PlansAgree(t, c, cs, row); }
    } else {
      var bad := UnsafeWitness(t, c, cs);
    }
  }

  /* ---------- What goes wrong otherwise ---------- */

  /** A strict comparison on the one covered column: the index path treats it as an equality, so no
      row is in both answers. */
  lemma StrictComparisonSwapsTheAnswer(t: Table, c: Choice, cs: seq<Condition>, row: Row)
    requires |row| == |t.columns| && Catalog.DistinctNames(t.columns) && Known(c.index.columns, t.columns)
    requires |cs| == 1 && (cs[0].op == LT || cs[0].op == GT) && c.covered == Covered(c.index.columns, cs) && c.covered != []
    ensures !(IndexKeeps(t, c, cs, row) && Matches(t, row, cs))
  {
    hide IndexValues, CoveredValues, Covered, Known;
    CoveredValuesAre(c.covered, cs);
    IndexValuesAre(c.index.columns, t.columns, row);
    assert Mentions(cs, c.covered[0]);
    var p := KnownAt(t, c.index.columns, 0);
    LessIrreflexive(cs[0].value);
  }

  /** Two conditions on one column of a fully covered index: the scanned text has more values than
      any entry, so the index path returns nothing, even for rows that meet both. */
  lemma RepeatedColumnFindsNothing(t: Table, c: Choice, cs: seq<Condition>, row: Row, i: nat, j: nat)
    requires |row| == |t.columns| && Catalog.DistinctNames(t.columns) && Known(c.index.columns, t.columns)
    requires Full(c) && c.covered == Covered(c.index.columns, cs)
    requires i < j < |cs| && cs[i].column == cs[j].column && cs[i].column in c.covered
    ensures !IndexKeeps(t, c, cs, row)
  {
    hide Covered;
    IndexValuesAre(c.index.columns, t.columns, row);
    TooManyValues(c.covered, cs, i, j);
  }

  /** More values than the index has columns: the scan finds nothing either. */
  lemma LongScanFindsNothing(t: Table, c: Choice, cs: seq<Condition>, row: Row)
    requires |row| == |t.columns| && Catalog.DistinctNames(t.columns) && Known(c.index.columns, t.columns)
    requires |CoveredValues(c.covered, cs)| > |c.index.columns|
    ensures !IndexKeeps(t, c, cs, row)
  {
    hide CoveredValues;
    IndexValuesAre(c.index.columns, t.columns, row);
  }

  function PlaceOf(names: seq<Bytes>, name: Bytes): (k: Option<nat>)
    ensures k.Some? ==> k.value < |names| && names[k.value] == name
    ensures k.None? ==> name !in names
  {
    if names == [] then None
    else if names[0] == name then Some(0)
    else
      var k := PlaceOf(names[1..], name);
      assert names == [names[0]] + names[1..];
      if k.None? then None else Some(k.value + 1)
  }

  /** A row whose first index columns hold the scanned values, and whose other columns meet the query. */
  function ScannedRow(t: Table, names: seq<Bytes>, values: seq<Bytes>, cs: seq<Condition>): (row: Row)
    ensures |row| == |t.columns|
    ensures forall p :: 0 <= p < |row| ==>
              var k := PlaceOf(names, t.columns[p].name);
              row[p] == if k.Some? && k.value < |values| then values[k.value] else TextFor(cs, |cs|, t.columns[p].name)
  {
    seq(|t.columns|, p requires 0 <= p < |t.columns| =>
      var k := PlaceOf(names, t.columns[p].name);
      if k.Some? && k.value < |values| then values[k.value] else TextFor(cs, |cs|, t.columns[p].name))
  }

  ghost predicate AllDistinct(names: seq<Bytes>) {
    forall a, b :: 0 <= a < b < |names| ==> names[a] != names[b]
  }

  /** The conditions outside the covered columns are on one column each, and on none that the scan reaches. */
  ghost predicate OutsideApart(c: Choice, cs: seq<Condition>) {
    && (forall i, j :: 0 <= i < |cs| && 0 <= j < |cs| && i != j && cs[i].column !in c.covered ==> cs[i].column != cs[j].column)
    && var n := |CoveredValues(c.covered, cs)|;
       forall i, k :: 0 <= i < |cs| && cs[i].column !in c.covered && 0 <= k < |c.index.columns| && k < n ==> c.index.columns[k] != cs[i].column
  }

  lemma ScannedIsSelected(t: Table, c: Choice, cs: seq<Condition>)
    requires Catalog.DistinctNames(t.columns) && Known(c.index.columns, t.columns) && AllDistinct(c.index.columns)
    requires |CoveredValues(c.covered, cs)| <= |c.index.columns|
    ensures Selected(t, c, cs, ScannedRow(t, c.index.columns, CoveredValues(c.covered, cs), cs))
  {
    hide CoveredValues, IndexValues, Known, TextFor;
    var names, values := c.index.columns, CoveredValues(c.covered, cs);
    var row := ScannedRow(t, names, values, cs);
    IndexValuesAre(names, t.columns, row);
    forall k | 0 <= k < |values| ensures IndexValues(names, t.columns, row)[k] == values[k] {
      var p := KnownAt(t, names, k);
      assert PlaceOf(names, names[k]) == Some(k);
    }
    assert values == IndexValues(names, t.columns, row)[..|values|];
  }

  lemma ScannedIsKept(t: Table, c: Choice, cs: seq<Condition>)
    requires Catalog.DistinctNames(t.columns) && Known(c.index.columns, t.columns) && AllDistinct(c.index.columns)
    requires Meaningful(t, cs) && NoEmptyValue(cs) && OutsideApart(c, cs)
    requires |CoveredValues(c.covered, cs)| <= |c.index.columns|
    ensures IndexKeeps(t, c, cs, ScannedRow(t, c.index.columns, CoveredValues(c.covered, cs), cs))
  {
    hide CoveredValues, IndexValues, Known, Selected, AllDistinct;
    var row := ScannedRow(t, c.index.columns, CoveredValues(c.covered, cs), cs);
    ScannedIsSelected(t, c, cs);
    forall i | 0 <= i < |cs| && cs[i].column !in c.covered ensures Holds(t, row, cs[i]) {
      MeetingAndFailing(cs[i]);
      var p := Position(t.columns, cs[i].column).value;
      assert ConditionOn(cs, cs[i].column) == Some(i);
    }
  }

  /** The last scanned value stands for a column that no condition is on: changing it changes what the
      index path keeps, and nothing that was asked for. */
  lemma LastIsFree(t: Table, c: Choice, cs: seq<Condition>, row: Row, p: nat)
    requires |row| == |t.columns| && Catalog.DistinctNames(t.columns) && Known(c.index.columns, t.columns)
    requires AllDistinct(c.index.columns) && OutsideApart(c, cs) && c.covered <= c.index.columns
    requires |c.covered| < |CoveredValues(c.covered, cs)| <= |c.index.columns|
    requires p < |t.columns| && t.columns[p].name == c.index.columns[|CoveredValues(c.covered, cs)| - 1]
    ensures var values := CoveredValues(c.covered, cs);
            var other := row[p := values[|values| - 1] + [0]];
            !IndexKeeps(t, c, cs, other) && (Matches(t, row, cs) ==> Matches(t, other, cs))
  {
    hide CoveredValues, IndexValues, Known;
    var names, values := c.index.columns, CoveredValues(c.covered, cs);
    var last := |values| - 1;
    var other := row[p := values[last] + [0]];
    IndexValuesAre(names, t.columns, other);
    assert IndexValues(names, t.columns, other)[last] == other[p] != values[last];
    forall i | 0 <= i < |cs| && Holds(t, row, cs[i]) ensures Holds(t, other, cs[i]) {
      if cs[i].column in c.covered {
        var k :| 0 <= k < |c.covered| && c.covered[k] == cs[i].column;
        assert names[k] == cs[i].column && k < last;
      }
      assert cs[i].column != names[last];
    }
  }

  /** Two conditions on one covered column of an index that is covered in part: its second value is
      compared with the next index column, so the index path and the filter differ on some row. */
  lemma RepeatedColumnDisagrees(t: Table, c: Choice, cs: seq<Condition>, i: nat, j: nat) returns (row: Row)
    requires Catalog.DistinctNames(t.columns) && Known(c.index.columns, t.columns) && AllDistinct(c.index.columns)
    requires !Full(c) && c.covered == Covered(c.index.columns, cs)
    requires Meaningful(t, cs) && NoEmptyValue(cs) && OutsideApart(c, cs)
    requires i < j < |cs| && cs[i].column == cs[j].column && cs[i].column in c.covered
    requires |CoveredValues(c.covered, cs)| <= |c.index.columns|
    ensures |row| == |t.columns| && !(IndexKeeps(t, c, cs, row) <==> Matches(t, row, cs))
    ensures cs[i].op == EQ && cs[j].op == EQ && cs[i].value != cs[j].value ==> IndexKeeps(t, c, cs, row)
  {
    hide CoveredValues, IndexKeeps, Known, OutsideApart;
    var names, values := c.index.columns, CoveredValues(c.covered, cs);
    TooManyValues(c.covered, cs, i, j);
    ScannedIsKept(t, c, cs);
    row := ScannedRow(t, names, values, cs);
    if Matches(t, row, cs) {
      assert Holds(t, row, cs[i]) && Holds(t, row, cs[j]);
      var p := KnownAt(t, names, |values| - 1);
      LastIsFree(t, c, cs, row, p);
      row := row[p := values[|values| - 1] + [0]];
    }
  }

  lemma {:induction false} ValuesForCount(name: Bytes, cs: seq<Condition>, i: nat, j: nat)
    requires i <= j < |cs| && cs[i].column == name && cs[j].column == name
    ensures |ValuesFor(name, cs)| >= if i < j then 2 else 1
  {
    if i > 0 {
      ValuesForCount(name, cs[1..], i - 1, j - 1);
    } else if j > 0 {
      ValuesForCount(name, cs[1..], j - 1, j - 1);
    }
  }

  lemma {:induction false} EnoughValues(covered: seq<Bytes>, cs: seq<Condition>)
    requires forall k :: 0 <= k < |covered| ==> Mentions(cs, covered[k])
    ensures |CoveredValues(covered, cs)| >= |covered|
  {
    if covered == [] {
    } else {
      assert Mentions(cs, covered[0]);
      var i :| 0 <= i < |cs| && cs[i].column == covered[0];
      ValuesForCount(covered[0], cs, i, i);
      assert forall k :: 0 <= k < |covered| - 1 ==> covered[1..][k] == covered[k + 1];
      EnoughValues(covered[1..], cs);
    }
  }

  lemma {:induction false} TooManyValues(covered: seq<Bytes>, cs: seq<Condition>, i: nat, j: nat)
    requires forall k :: 0 <= k < |covered| ==> Mentions(cs, covered[k])
    requires i < j < |cs| && cs[i].column == cs[j].column && cs[i].column in covered
    ensures |CoveredValues(covered, cs)| > |covered|
  {
    var rest := covered[1..];
    assert forall k :: 0 <= k < |rest| ==> rest[k] == covered[k + 1];
    if covered[0] == cs[i].column {
      ValuesForCount(covered[0], cs, i, j);
      EnoughValues(rest, cs);
    } else {
      assert Mentions(cs, covered[0]);
      var n :| 0 <= n < |cs| && cs[n].column == covered[0];
      ValuesForCount(covered[0], cs, n, n);
      TooManyValues(rest, cs, i, j);
    }
  }

  /** A fully covered index drops every condition on other columns. */
  lemma FullCoverIgnoresTheRest(t: Table, c: Choice, cs: seq<Condition>, extra: Condition, row: Row)
    requires Full(c) && extra.column !in c.covered
    ensures IndexKeeps(t, c, cs + [extra], row) <==> IndexKeeps(t, c, cs, row)
  {
    CoveredValuesIgnore(c.covered, cs, extra);
  }

  lemma {:induction false} CoveredValuesIgnore(covered: seq<Bytes>, cs: seq<Condition>, extra: Condition)
    requires extra.column !in covered
    ensures CoveredValues(covered, cs + [extra]) == CoveredValues(covered, cs)
  {
    if covered == [] {
    } else {
      ValuesForIgnore(covered[0], cs, extra);
      CoveredValuesIgnore(covered[1..], cs, extra);
    }
  }

  lemma {:induction false} ValuesForIgnore(name: Bytes, cs: seq<Condition>, extra: Condition)
    requires extra.column != name
    ensures ValuesFor(name, cs + [extra]) == ValuesFor(name, cs)
  {
    if cs == [] {
      assert cs + [extra] == [extra] && [extra][1..] == [];
    } else {
      assert (cs + [extra])[1..] == cs[1..] + [extra];
      ValuesForIgnore(name, cs[1..], extra);
    }
  }
}
