/** How rows and index entries are named in the key space (db/db.go, db/select.go): colon-joined
    parts, found again by prefix and taken apart by splitting. */
module TableKeys {
  import opened Bytes

  const COLON: Byte := 58

  ghost predicate Plain(s: Bytes) {
    COLON !in s
  }

  ghost predicate AllPlain(parts: seq<Bytes>) {
    forall i :: 0 <= i < |parts| ==> Plain(parts[i])
  }

  /** The parts with the separator between them. */
  function Join(sep: Byte, parts: seq<Bytes>): Bytes
    requires parts != []
  {
    if |parts| == 1 then parts[0] else parts[0] + [sep] + Join(sep, parts[1..])
  }

  /** strings.Split(s, sep), for a separator of one byte. */
  function Split(sep: Byte, s: Bytes): (parts: seq<Bytes>)
    ensures parts != []
  {
    if s == [] then [[]]
    else
      var rest := Split(sep, s[1..]);
      if s[0] == sep then [[]] + rest else [[s[0]] + rest[0]] + rest[1..]
  }

  /* ---------- Splitting inverts joining ---------- */

  lemma {:induction false} SplitPlain(sep: Byte, s: Bytes)
    requires sep !in s
    ensures Split(sep, s) == [s]
  {
    if s == [] {
    } else {
      assert s[0] in s;
      forall c | c in s[1..] ensures c in s {}
      SplitPlain(sep, s[1..]);
      assert s == [s[0]] + s[1..];
    }
  }

  lemma {:induction false} SplitHead(sep: Byte, s: Bytes, rest: Bytes)
    requires sep !in s
    ensures Split(sep, s + [sep] + rest) == [s] + Split(sep, rest)
  {
    var all := s + [sep] + rest;
    if s == [] {
      assert all[1..] == rest;
    } else {
      assert s[0] in s;
      forall c | c in s[1..] ensures c in s {}
      assert all[1..] == s[1..] + [sep] + rest;
      SplitHead(sep, s[1..], rest);
      assert s == [s[0]] + s[1..];
    }
  }

  lemma {:induction false} SplitJoin(sep: Byte, parts: seq<Bytes>)
    requires parts != [] && forall i :: 0 <= i < |parts| ==> sep !in parts[i]
    ensures Split(sep, Join(sep, parts)) == parts
  {
    if |parts| == 1 {
      SplitPlain(sep, parts[0]);
    } else {
      SplitJoin(sep, parts[1..]);
      SplitHead(sep, parts[0], Join(sep, parts[1..]));
    }
  }

  /** A key is determined by its parts. */
  lemma JoinInjective(p: seq<Bytes>, q: seq<Bytes>)
    requires p != [] && q != [] && AllPlain(p) && AllPlain(q)
    ensures Join(COLON, p) == Join(COLON, q) <==> p == q
  {
    SplitJoin(COLON, p);
    SplitJoin(COLON, q);
  }

  /* ---------- Scanning by prefix finds whole parts ---------- */

  /** Two plain strings in front of a colon: the longer text starts with the shorter only if they are equal. */
  lemma {:induction false} HeadsMatch(a: Bytes, x: Bytes, b: Bytes, y: Bytes)
    requires Plain(a) && Plain(b)
    ensures HasPrefix(b + [COLON] + y, a + [COLON] + x) <==> a == b && HasPrefix(y, x)
  {
    var long, short := b + [COLON] + y, a + [COLON] + x;
    if a == [] || b == [] {
      assert a != [] ==> a[0] in a && short[0] == a[0];
      assert b != [] ==> b[0] in b && long[0] == b[0];
      if a == b {
        assert long == [COLON] + y && short == [COLON] + x;
        ConsPrefix(COLON, y, COLON, x);
      } else if a == [] {
        assert short[0] == COLON && long[0] == b[0];
      } else {
        assert short[0] == a[0] && long[0] == COLON;
      }
    } else {
      forall c | c in a[1..] ensures c in a {}
      forall c | c in b[1..] ensures c in b {}
      assert long == [b[0]] + (b[1..] + [COLON] + y);
      assert short == [a[0]] + (a[1..] + [COLON] + x);
      ConsPrefix(b[0], b[1..] + [COLON] + y, a[0], a[1..] + [COLON] + x);
      HeadsMatch(a[1..], x, b[1..], y);
      assert a == [a[0]] + a[1..] && b == [b[0]] + b[1..];
    }
  }

  lemma ConsPrefix(b: Byte, s: Bytes, a: Byte, p: Bytes)
    ensures HasPrefix([b] + s, [a] + p) <==> a == b && HasPrefix(s, p)
  {
    assert ([b] + s)[1..] == s && ([a] + p)[1..] == p;
    if HasPrefix([b] + s, [a] + p) {
      assert ([a] + p)[0] == ([b] + s)[0];
      assert [b] + s == [a] + p + ([b] + s)[1 + |p|..];
      assert s == p + ([b] + s)[1 + |p|..];
    }
    if a == b && HasPrefix(s, p) {
      assert s == p + s[|p|..];
      assert [b] + s == [a] + p + s[|p|..];
    }
  }

  lemma NoHead(a: Bytes, x: Bytes, b: Bytes)
    requires Plain(b)
    ensures !HasPrefix(b, a + [COLON] + x)
  {
    assert (a + [COLON] + x)[|a|] == COLON;
    assert |a| < |b| ==> b[|a|] in b;
  }

  /** The text a scan starts from: some leading parts, closed by a colon. */
  function PrefixOf(lead: seq<Bytes>): Bytes
    requires lead != []
  {
    Join(COLON, lead + [[]])
  }

  lemma PrefixStep(lead: seq<Bytes>)
    requires lead != []
    ensures PrefixOf(lead) == lead[0] + [COLON] + if |lead| == 1 then [] else PrefixOf(lead[1..])
  {
    var none: seq<Bytes> := [[]];
    assert (lead + none)[1..] == lead[1..] + none;
    if |lead| == 1 {
      assert lead[1..] + none == none;
      assert Join(COLON, none) == [];
    }
  }

  /** The prefix scan finds exactly the keys with these leading parts and at least one more. */
  lemma {:induction false} PrefixFindsExactly(lead: seq<Bytes>, parts: seq<Bytes>)
    requires lead != [] && parts != [] && AllPlain(lead) && AllPlain(parts)
    ensures HasPrefix(Join(COLON, parts), PrefixOf(lead)) <==> |lead| < |parts| && lead <= parts
  {
    var x := if |lead| == 1 then [] else PrefixOf(lead[1..]);
    PrefixStep(lead);
    if |parts| == 1 {
      NoHead(lead[0], x, parts[0]);
    } else {
      HeadsMatch(lead[0], x, parts[0], Join(COLON, parts[1..]));
      assert lead == [lead[0]] + lead[1..] && parts == [parts[0]] + parts[1..];
      if |lead| > 1 {
        PrefixFindsExactly(lead[1..], parts[1..]);
        assert lead <= parts <==> lead[0] == parts[0] && lead[1..] <= parts[1..] by {
          if lead <= parts { assert lead[1..] == parts[1..][..|lead| - 1]; }
          if lead[0] == parts[0] && lead[1..] <= parts[1..] { assert lead == parts[..|lead|]; }
        }
      } else {
        assert x <= Join(COLON, parts[1..]);
        assert lead <= parts <==> lead[0] == parts[0];
      }
    }
  }

  /* ---------- The keys of the engine ---------- */

  const INDEX: Bytes := [105, 110, 100, 101, 120]
  const CATALOG: Bytes := [95, 99, 97, 108, 97, 116, 111, 103]
  const SCHEMA: Bytes := [95, 115, 99, 104, 101, 109, 97]
  const INDEX_CATALOG: Bytes := [95, 115, 101, 99, 111, 110, 100, 97, 114, 121, 95, 105, 110, 100, 101, 120, 101, 115]

  ghost predicate Spells(b: Bytes, s: string) {
    |b| == |s| && forall i :: 0 <= i < |s| ==> b[i] as int == s[i] as int
  }

  lemma KeysSpelled()
    ensures Spells(INDEX, "index") && Spells(CATALOG, "_calatog")
    ensures Spells(SCHEMA, "_schema") && Spells(INDEX_CATALOG, "_secondary_indexes")
  {
  }

  function RowKey(table: Bytes, pk: Bytes): Bytes {
    table + [COLON] + pk
  }

  /** getSecondaryIndexKeyOrPrefix. */
  function IndexKey(table: Bytes, index: Bytes, values: seq<Bytes>, pk: Bytes): Bytes {
    INDEX + [COLON] + table + [COLON] + index + Tail(values) + [COLON] + pk
  }

  function Tail(values: seq<Bytes>): Bytes {
    if values == [] then [] else Tail(values[..|values| - 1]) + ([COLON] + values[|values| - 1])
  }

  lemma RowKeyIs(table: Bytes, pk: Bytes)
    ensures RowKey(table, pk) == Join(COLON, [table, pk])
    ensures RowKey(table, []) == PrefixOf([table])
  {
    assert [table, pk][1..] == [pk];
    PrefixStep([table]);
  }

  lemma {:induction false} JoinTail(head: Bytes, values: seq<Bytes>, last: Bytes)
    ensures Join(COLON, [head] + values + [last]) == head + Tail(values) + [COLON] + last
  {
    if values == [] {
      assert [head] + values + [last] == [head, last];
      assert [head, last][1..] == [last];
    } else {
      var n := |values| - 1;
      JoinTail(head, values[..n], values[n] + [COLON] + last);
      JoinLast([head] + values[..n], values[n], last);
      assert [head] + values[..n] + [values[n]] + [last] == [head] + values + [last];
      assert [head] + values[..n] + [values[n] + [COLON] + last] == [head] + values[..n] + [values[n] + [COLON] + last];
      calc {
        Join(COLON, [head] + values + [last]);
        Join(COLON, [head] + values[..n] + [values[n] + [COLON] + last]);
        head + Tail(values[..n]) + [COLON] + (values[n] + [COLON] + last);
        head + (Tail(values[..n]) + ([COLON] + values[n])) + [COLON] + last;
      }
    }
  }

  lemma {:induction false} JoinLast(front: seq<Bytes>, a: Bytes, b: Bytes)
    ensures Join(COLON, front + [a] + [b]) == Join(COLON, front + [a + [COLON] + b])
  {
    if front == [] {
      assert front + [a] + [b] == [a, b] && [a, b][1..] == [b];
      assert front + [a + [COLON] + b] == [a + [COLON] + b];
    } else {
      JoinLast(front[1..], a, b);
      assert (front + [a] + [b])[1..] == front[1..] + [a] + [b];
      assert (front + [a + [COLON] + b])[1..] == front[1..] + [a + [COLON] + b];
    }
  }

  lemma IndexKeyIs(table: Bytes, index: Bytes, values: seq<Bytes>, pk: Bytes)
    ensures IndexKey(table, index, values, pk) == Join(COLON, [INDEX, table, index] + values + [pk])
    ensures IndexKey(table, index, values, []) == PrefixOf([INDEX, table, index] + values)
  {
    JoinedIndex(table, index, values, pk);
    JoinedIndex(table, index, values, []);
  }

  lemma JoinedIndex(table: Bytes, index: Bytes, values: seq<Bytes>, pk: Bytes)
    ensures IndexKey(table, index, values, pk) == Join(COLON, [INDEX, table, index] + values + [pk])
  {
    var inner := [index] + values + [pk];
    JoinTail(index, values, pk);
    assert ([table] + inner)[1..] == inner && ([INDEX] + ([table] + inner))[1..] == [table] + inner;
    assert [INDEX, table, index] + values + [pk] == [INDEX] + ([table] + inner);
    var j := index + Tail(values) + [COLON] + pk;
    assert Join(COLON, [INDEX] + ([table] + inner)) == INDEX + [COLON] + (table + [COLON] + j);
    assert INDEX + [COLON] + (table + [COLON] + j) == IndexKey(table, index, values, pk);
  }

  /** The last part of the key, which the index path takes for the primary key. */
  function LastPart(key: Bytes): Bytes {
    var parts := Split(COLON, key);
    parts[|parts| - 1]
  }

  lemma LastPartOfIndexKey(table: Bytes, index: Bytes, values: seq<Bytes>, pk: Bytes)
    requires Plain(table) && Plain(index) && AllPlain(values) && Plain(pk)
    ensures LastPart(IndexKey(table, index, values, pk)) == pk
  {
    IndexKeyIs(table, index, values, pk);
    SplitJoin(COLON, [INDEX, table, index] + values + [pk]);
  }
}
