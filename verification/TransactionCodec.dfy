/** The payload of a commit record (db/transaction.go, db/db.go):
    ["TRANSACTION" length-prefixed][txnId 8][number of writes 4] then key and value,
    each length-prefixed, per write. */
module TransactionCodec {
  import opened Bytes
  import opened Engine

  const CMD_TRANSACTION: Bytes := [84, 82, 65, 78, 83, 65, 67, 84, 73, 79, 78]

  function EncodeWrites(ws: seq<(Bytes, Bytes)>): Bytes {
    if ws == [] then [] else Str(ws[0].0) + Str(ws[0].1) + EncodeWrites(ws[1..])
  }

  function EncodeBody(rec: Record): Bytes {
    U64(rec.txn) + U32(|rec.writes|) + EncodeWrites(rec.writes)
  }

  function EncodePayload(rec: Record): Bytes {
    Str(CMD_TRANSACTION) + EncodeBody(rec)
  }

  /** Sizes the fixed-width fields can hold. */
  predicate Encodable(rec: Record) {
    rec.txn < TWO_64 && |rec.writes| < TWO_32 && ShortTexts(rec.writes)
  }

  predicate ShortTexts(writes: seq<(Bytes, Bytes)>) {
    forall i :: 0 <= i < |writes| ==> |writes[i].0| < TWO_32 && |writes[i].1| < TWO_32
  }

  /** readLengthPrefixedString at position i; the comparison is made in 32 bits. */
  function ReadString(buf: Bytes, i: nat): (r: Option<Bytes>)
    requires i <= |buf|
    ensures r.Some? ==> i + 4 + |r.value| <= |buf|
  {
    if |buf| - i < 4 then None
    else
      var n := FromU32(buf[i..i + 4]);
      if n > (|buf| - i - 4) % TWO_32 then None else Some(buf[i + 4..i + 4 + n])
  }

  /** A text is read exactly if it stands there behind its length and what is left of the buffer, counted
      in 32 bits, is no shorter. */
  lemma StringReadExactly(buf: Bytes, i: nat, s: Bytes)
    requires i <= |buf|
    ensures ReadString(buf, i) == Some(s) <==>
              && |s| < 0x1_0000_0000 && i + 4 + |s| <= |buf| && buf[i..i + 4 + |s|] == Str(s)
              && |s| <= (|buf| - i - 4) % 0x1_0000_0000
  {
    hide U32, FromU32;
    if i + 4 <= |buf| {
      U32Onto(buf[i..i + 4]);
      var n := FromU32(buf[i..i + 4]);
      if i + 4 + n <= |buf| { ThreePieces(buf, i, i + 4, i + 4 + n, i + 4 + n); }
    }
    if |s| < TWO_32 && i + 4 + |s| <= |buf| && buf[i..i + 4 + |s|] == Str(s) {
      U32RoundTrip(|s|);
      ThreeParts(buf, i, U32(|s|), s, []);
    }
  }

  datatype Parsed = Parsed(writes: seq<(Bytes, Bytes)>, next: nat)

  function ReadWrites(buf: Bytes, i: nat, n: nat): (r: Option<Parsed>)
    requires i <= |buf|
    ensures r.Some? ==> i <= r.value.next <= |buf| && |r.value.writes| == n
    decreases n
  {
    if n == 0 then Some(Parsed([], i))
    else
      var key := ReadString(buf, i);
      if key.None? then None
      else
        var j := i + 4 + |key.value|;
        var value := ReadString(buf, j);
        if value.None? then None
        else
          var rest := ReadWrites(buf, j + 4 + |value.value|, n - 1);
          if rest.None? then None
          else Some(Parsed([(key.value, value.value)] + rest.value.writes, rest.value.next))
  }

  /** deserialiseTransactionCommand. */
  function DecodeBody(buf: Bytes): Option<Record> {
    if |buf| < 12 then None
    else
      var ws := ReadWrites(buf, 12, FromU32(buf[8..12]));
      if ws.None? || ws.value.next != |buf| then None
      else Some(Record(FromU64(buf[..8]), ws.value.writes))
  }

  /** What recovery makes of one payload: only transaction records are known. */
  function DecodePayload(buf: Bytes): Option<Record> {
    var cmd := ReadString(buf, 0);
    if cmd.None? || cmd.value != CMD_TRANSACTION then None
    else DecodeBody(buf[4 + |cmd.value|..])
  }

  /* ---------- Where everything lies in a payload ---------- */

  /** Where the n-th write lies. */
  function WriteOffset(writes: seq<(Bytes, Bytes)>, n: nat): nat
    requires n <= |writes|
  {
    if n == 0 then 27 else WriteOffset(writes, n - 1) + 8 + |writes[n - 1].0| + |writes[n - 1].1|
  }

  lemma {:induction false} WritesJoin(a: seq<(Bytes, Bytes)>, b: seq<(Bytes, Bytes)>)
    ensures EncodeWrites(a + b) == EncodeWrites(a) + EncodeWrites(b)
    decreases |a|
  {
    hide Str;
    if a == [] {
      assert a + b == b;
    } else {
      assert (a + b)[1..] == a[1..] + b;
      WritesJoin(a[1..], b);
      assert Str(a[0].0) + Str(a[0].1) + (EncodeWrites(a[1..]) + EncodeWrites(b)) == (Str(a[0].0) + Str(a[0].1) + EncodeWrites(a[1..])) + EncodeWrites(b);
    }
  }

  lemma {:induction false} WriteOffsetIs(writes: seq<(Bytes, Bytes)>, n: nat)
    requires n <= |writes|
    ensures WriteOffset(writes, n) == 27 + |EncodeWrites(writes[..n])|
  {
    hide Str;
    if n > 0 {
      WriteOffsetIs(writes, n - 1);
      assert writes[..n] == writes[..n - 1] + [writes[n - 1]];
      WritesJoin(writes[..n - 1], [writes[n - 1]]);
    }
  }

  /** A payload starts with the length 11 and the word TRANSACTION, the id in eight bytes and the number of
      writes in four; then write after write: key length, key, value length, value. */
  lemma PayloadLayout(rec: Record, n: nat)
    requires n < |rec.writes|
    ensures var b, k, v, at := EncodePayload(rec), rec.writes[n].0, rec.writes[n].1, WriteOffset(rec.writes, n);
            var p, q := at + 4, at + 8 + |k|;
            && b[..4] == [0, 0, 0, 11] && b[4..15] == [84, 82, 65, 78, 83, 65, 67, 84, 73, 79, 78]
            && |b| == WriteOffset(rec.writes, |rec.writes|) >= q + |v|
            && b[15..23] == U64(rec.txn) && b[23..27] == U32(|rec.writes|)
            && b[at..p] == U32(|k|) && b[p..p + |k|] == k && b[p + |k|..q] == U32(|v|) && b[q..q + |v|] == v
  {
    hide U32, U64, EncodeWrites, Str, EncodePayload, WriteOffset;
    var k, v, ws := rec.writes[n].0, rec.writes[n].1, rec.writes;
    HeadLayout(rec);
    var head, before, one, behind := WritesAround(rec, n);
    var b := EncodePayload(rec);
    var at := |head + before|;
    MiddleAt(head + before, one, behind);
    OneStretch(b, at, Str(k), Str(v));
    StrParts(b, at, k);
    StrParts(b, at + 4 + |k|, v);
  }

  lemma MiddleAt(a: Bytes, b: Bytes, c: Bytes)
    ensures (a + b + c)[|a|..|a| + |b|] == b
  {
  }

  lemma OneStretch(b: Bytes, at: nat, x: Bytes, y: Bytes)
    requires at + |x| + |y| <= |b| && b[at..at + |x| + |y|] == x + y
    ensures b[at..at + |x|] == x && b[at + |x|..at + |x| + |y|] == y
  {
    ThreeParts(b, at, x, y, []);
  }

  /** The payload around its n-th write. */
  lemma WritesAround(rec: Record, n: nat) returns (head: Bytes, before: Bytes, one: Bytes, behind: Bytes)
    requires n < |rec.writes|
    ensures EncodePayload(rec) == head + before + one + behind && |head| == 27
    ensures one == Str(rec.writes[n].0) + Str(rec.writes[n].1)
    ensures |head + before| == WriteOffset(rec.writes, n)
    ensures |EncodePayload(rec)| == WriteOffset(rec.writes, |rec.writes|)
  {
    hide U32, U64, EncodeWrites, Str, WriteOffset;
    var ws := rec.writes;
    assert ws == (ws[..n] + [ws[n]]) + ws[n + 1..] && ws[..|ws|] == ws;
    WritesJoin(ws[..n] + [ws[n]], ws[n + 1..]);
    WritesJoin(ws[..n], [ws[n]]);
    OneWrite(ws[n]);
    WriteOffsetIs(ws, n);
    WriteOffsetIs(ws, |ws|);
    HeadIs();
    head := Str(CMD_TRANSACTION) + (U64(rec.txn) + U32(|ws|));
    before, one, behind := EncodeWrites(ws[..n]), Str(ws[n].0) + Str(ws[n].1), EncodeWrites(ws[n + 1..]);
    assert EncodeWrites(ws) == before + one + behind;
    assert EncodePayload(rec) == Str(CMD_TRANSACTION) + (U64(rec.txn) + U32(|ws|) + EncodeWrites(ws));
    assert U64(rec.txn) + U32(|ws|) + (before + one + behind) == U64(rec.txn) + U32(|ws|) + before + one + behind;
  }

  lemma HeadLayout(rec: Record)
    ensures var b := EncodePayload(rec);
            && |b| >= 27 && b[..4] == [0, 0, 0, 11] && b[4..15] == [84, 82, 65, 78, 83, 65, 67, 84, 73, 79, 78]
            && b[15..23] == U64(rec.txn) && b[23..27] == U32(|rec.writes|)
  {
    hide U32, U64, EncodeWrites, Str;
    HeadIs();
    var b := EncodePayload(rec);
    var word: Bytes := [0, 0, 0, 11] + [84, 82, 65, 78, 83, 65, 67, 84, 73, 79, 78];
    assert b == word + (U64(rec.txn) + U32(|rec.writes|) + EncodeWrites(rec.writes));
    assert b[..15] == word && word[..4] == [0, 0, 0, 11];
    assert b[..4] == b[..15][..4] && b[4..15] == b[..15][4..];
    assert b[15..] == U64(rec.txn) + (U32(|rec.writes|) + EncodeWrites(rec.writes));
    assert b[15..23] == b[15..][..8] && b[23..27] == b[15..][8..12];
  }

  lemma OneWrite(w: (Bytes, Bytes))
    ensures EncodeWrites([w]) == Str(w.0) + Str(w.1)
  {
    assert [w][1..] == [];
  }

  lemma HeadIs()
    ensures Str(CMD_TRANSACTION) == [0, 0, 0, 11] + [84, 82, 65, 78, 83, 65, 67, 84, 73, 79, 78]
  {
  }

  lemma StrParts(b: Bytes, at: nat, s: Bytes)
    requires at + 4 + |s| <= |b| && b[at..at + 4 + |s|] == Str(s)
    ensures b[at..at + 4] == U32(|s|) && b[at + 4..at + 4 + |s|] == s
  {
    hide U32;
    ThreeParts(b, at, U32(|s|), s, []);
  }

  /* ---------- Encoding and then decoding ---------- */

  lemma StringReads(buf: Bytes, i: nat, s: Bytes, post: Bytes)
    requires i <= |buf| && buf[i..] == Str(s) + post && |s| < TWO_32 && |buf| < TWO_32
    ensures ReadString(buf, i) == Some(s)
    ensures i + 4 + |s| <= |buf| && buf[i + 4 + |s|..] == post
  {
    var tail := buf[i..];
    assert buf[i..i + 4] == tail[..4] == U32(|s|);
    U32RoundTrip(|s|);
    assert buf[i + 4..i + 4 + |s|] == tail[4..4 + |s|] == s;
    assert buf[i + 4 + |s|..] == tail[4 + |s|..] == post;
  }

  lemma {:induction false} WritesRead(buf: Bytes, i: nat, ws: seq<(Bytes, Bytes)>)
    requires i <= |buf| < TWO_32 && buf[i..] == EncodeWrites(ws)
    requires forall j :: 0 <= j < |ws| ==> |ws[j].0| < TWO_32 && |ws[j].1| < TWO_32
    ensures ReadWrites(buf, i, |ws|) == Some(Parsed(ws, |buf|))
    decreases |ws|
  {
    if ws == [] {
      assert i == |buf|;
    } else {
      var next := FirstWriteReads(buf, i, ws);
      WritesRead(buf, next, ws[1..]);
      ReadWritesStep(buf, i, |ws|, ws[0].0, ws[0].1, next, |ws[1..]|);
      assert [(ws[0].0, ws[0].1)] + ws[1..] == ws;
    }
  }

  lemma FirstWriteReads(buf: Bytes, i: nat, ws: seq<(Bytes, Bytes)>) returns (next: nat)
    requires i <= |buf| < TWO_32 && ws != [] && buf[i..] == EncodeWrites(ws)
    requires |ws[0].0| < TWO_32 && |ws[0].1| < TWO_32
    ensures next == i + 8 + |ws[0].0| + |ws[0].1| <= |buf| && buf[next..] == EncodeWrites(ws[1..])
    ensures ReadString(buf, i) == Some(ws[0].0) && ReadString(buf, i + 4 + |ws[0].0|) == Some(ws[0].1)
  {
    hide ReadString, Str;
    var k, v := ws[0].0, ws[0].1;
    var rest := EncodeWrites(ws[1..]);
    assert Str(k) + Str(v) + rest == Str(k) + (Str(v) + rest);
    StringReads(buf, i, k, Str(v) + rest);
    StringReads(buf, i + 4 + |k|, v, rest);
    next := i + 8 + |k| + |v|;
  }

  lemma ReadWritesStep(buf: Bytes, i: nat, n: nat, k: Bytes, v: Bytes, next: nat, n': nat)
    requires next == i + 8 + |k| + |v| <= |buf| && n == n' + 1
    requires ReadString(buf, i) == Some(k) && ReadString(buf, i + 4 + |k|) == Some(v)
    ensures ReadWrites(buf, i, n) ==
            match ReadWrites(buf, next, n')
            case None => None
            case Some(p) => Some(Parsed([(k, v)] + p.writes, p.next))
  {
    hide ReadString;
  }

  lemma BodyRoundTrip(rec: Record)
    requires Encodable(rec) && |EncodeBody(rec)| < TWO_32
    ensures DecodeBody(EncodeBody(rec)) == Some(rec)
  {
    hide EncodeWrites, ReadWrites;
    var buf := EncodeBody(rec);
    assert buf[..8] == U64(rec.txn) && buf[8..12] == U32(|rec.writes|) && buf[12..] == EncodeWrites(rec.writes);
    U64RoundTrip(rec.txn);
    U32RoundTrip(|rec.writes|);
    WritesRead(buf, 12, rec.writes);
  }

  /** Every record, in whatever order its writes were listed, decodes to itself. */
  lemma PayloadRoundTrip(rec: Record)
    requires Encodable(rec) && |EncodePayload(rec)| < TWO_32
    ensures DecodePayload(EncodePayload(rec)) == Some(rec)
  {
    hide EncodeBody, DecodeBody, ReadString, Str;
    var buf, body := EncodePayload(rec), EncodeBody(rec);
    assert buf[0..] == buf;
    StringReads(buf, 0, CMD_TRANSACTION, body);
    BodyRoundTrip(rec);
  }

  /* ---------- Decoding and then encoding ---------- */

  lemma ReadIsString(buf: Bytes, i: nat)
    requires i <= |buf| && ReadString(buf, i).Some?
    ensures var s := ReadString(buf, i).value;
            |s| < TWO_32 && buf[i..i + 4 + |s|] == Str(s)
  {
    var s := ReadString(buf, i).value;
    U32Onto(buf[i..i + 4]);
    assert buf[i..i + 4 + |s|] == buf[i..i + 4] + buf[i + 4..i + 4 + |s|];
  }

  lemma OneMoreShort(k: Bytes, v: Bytes, writes: seq<(Bytes, Bytes)>)
    requires |k| < TWO_32 && |v| < TWO_32 && ShortTexts(writes)
    ensures ShortTexts([(k, v)] + writes)
  {
  }

  /** The first write of a list that was read, and where the others begin. */
  lemma FirstOfRead(buf: Bytes, i: nat, n: nat) returns (key: Bytes, value: Bytes, j: nat, k: nat)
    requires i <= |buf| && n > 0 && ReadWrites(buf, i, n).Some?
    ensures j == i + 4 + |key| <= |buf| && k == j + 4 + |value| <= |buf|
    ensures ReadString(buf, i) == Some(key) && ReadString(buf, j) == Some(value)
    ensures var rest := ReadWrites(buf, k, n - 1);
            && rest.Some? && k <= rest.value.next <= |buf|
            && ReadWrites(buf, i, n).value == Parsed([(key, value)] + rest.value.writes, rest.value.next)
  {
    hide ReadString;
    key := ReadString(buf, i).value;
    j := i + 4 + |key|;
    value := ReadString(buf, j).value;
    k := j + 4 + |value|;
  }

  lemma {:induction false} ReadIsWrites(buf: Bytes, i: nat, n: nat)
    requires i <= |buf| && ReadWrites(buf, i, n).Some?
    ensures var p := ReadWrites(buf, i, n).value;
            i <= p.next <= |buf| && buf[i..p.next] == EncodeWrites(p.writes) && ShortTexts(p.writes)
    decreases n
  {
    if n > 0 {
      hide ReadString, ReadWrites, Str, EncodeWrites, ShortTexts;
      var key, value, j, k := FirstOfRead(buf, i, n);
      ReadIsString(buf, i);
      ReadIsString(buf, j);
      ReadIsWrites(buf, k, n - 1);
      var rest := ReadWrites(buf, k, n - 1).value;
      Together(buf, i, j, k, key, value, rest);
      OneMoreShort(key, value, rest.writes);
    }
  }

  lemma Together(buf: Bytes, i: nat, j: nat, k: nat, key: Bytes, value: Bytes, rest: Parsed)
    requires i <= j <= k <= rest.next <= |buf|
    requires buf[i..j] == Str(key) && buf[j..k] == Str(value) && buf[k..rest.next] == EncodeWrites(rest.writes)
    ensures buf[i..rest.next] == EncodeWrites([(key, value)] + rest.writes)
  {
    EncodeWritesCons(key, value, rest.writes);
    ThreePieces(buf, i, j, k, rest.next);
  }

  lemma EncodeWritesCons(k: Bytes, v: Bytes, ws: seq<(Bytes, Bytes)>)
    ensures EncodeWrites([(k, v)] + ws) == Str(k) + Str(v) + EncodeWrites(ws)
  {
    assert ([(k, v)] + ws)[1..] == ws;
  }

  lemma DecodedBodyIsEncoded(buf: Bytes)
    requires DecodeBody(buf).Some?
    ensures Encodable(DecodeBody(buf).value) && EncodeBody(DecodeBody(buf).value) == buf
  {
    hide EncodeWrites, ReadWrites;
    var rec := DecodeBody(buf).value;
    U64Onto(buf[..8]);
    U32Onto(buf[8..12]);
    ReadIsWrites(buf, 12, FromU32(buf[8..12]));
    assert buf == buf[..8] + buf[8..12] + buf[12..];
    assert buf[12..|buf|] == buf[12..];
  }

  /** Every accepted byte string is the encoding of what it decodes to. */
  lemma DecodedPayloadIsEncoded(buf: Bytes)
    requires DecodePayload(buf).Some?
    ensures Encodable(DecodePayload(buf).value) && EncodePayload(DecodePayload(buf).value) == buf
  {
    hide EncodeBody, DecodeBody, ReadString, Str;
    var n := 4 + |CMD_TRANSACTION|;
    ReadIsString(buf, 0);
    DecodedBodyIsEncoded(buf[n..]);
    assert buf == buf[0..n] + buf[n..];
  }

  /* ---------- Truncation and trailing bytes ---------- */

  lemma StringPrefix(s: Bytes, a: Bytes, t: Bytes, b: Bytes)
    requires |s| < TWO_32 && |t| < TWO_32 && Str(s) + a <= Str(t) + b
    ensures s == t && a <= b
  {
    var x, y := Str(s) + a, Str(t) + b;
    assert y[..|x|] == x;
    assert x[..4] == U32(|s|) && y[..4] == U32(|t|) && x[..4] == y[..4];
    U32RoundTrip(|s|);
    U32RoundTrip(|t|);
    assert x[4..4 + |s|] == s && y[4..4 + |s|] == t;
    assert x[4 + |s|..] == a && y[4 + |s|..] == b && y[4 + |s|..][..|a|] == y[4 + |s|..|x|];
  }

  lemma {:induction false} WritesPrefix(us: seq<(Bytes, Bytes)>, ws: seq<(Bytes, Bytes)>)
    requires |us| == |ws| && EncodeWrites(us) <= EncodeWrites(ws)
    requires forall j :: 0 <= j < |us| ==> |us[j].0| < TWO_32 && |us[j].1| < TWO_32
    requires forall j :: 0 <= j < |ws| ==> |ws[j].0| < TWO_32 && |ws[j].1| < TWO_32
    ensures us == ws
  {
    if us == [] {
    } else {
      hide Str;
      var a, b := EncodeWrites(us[1..]), EncodeWrites(ws[1..]);
      assert EncodeWrites(us) == Str(us[0].0) + (Str(us[0].1) + a);
      assert EncodeWrites(ws) == Str(ws[0].0) + (Str(ws[0].1) + b);
      StringPrefix(us[0].0, Str(us[0].1) + a, ws[0].0, Str(ws[0].1) + b);
      StringPrefix(us[0].1, a, ws[0].1, b);
      WritesPrefix(us[1..], ws[1..]);
      assert us == [us[0]] + us[1..] && ws == [ws[0]] + ws[1..];
    }
  }

  /** No encoding is a proper prefix of another one. */
  lemma PrefixFree(a: Record, b: Record)
    requires Encodable(a) && Encodable(b) && EncodePayload(a) <= EncodePayload(b)
    ensures a == b
  {
    hide EncodeWrites, Str, U64, U32, FromU64, FromU32;
    var n := 4 + |CMD_TRANSACTION|;
    var x, y := EncodePayload(a), EncodePayload(b);
    assert y[..|x|] == x;
    assert x[n..n + 8] == U64(a.txn) && y[n..n + 8] == U64(b.txn) && x[n..n + 8] == y[n..n + 8];
    U64RoundTrip(a.txn);
    U64RoundTrip(b.txn);
    assert x[n + 8..n + 12] == U32(|a.writes|) && y[n + 8..n + 12] == U32(|b.writes|) && x[n + 8..n + 12] == y[n + 8..n + 12];
    U32RoundTrip(|a.writes|);
    U32RoundTrip(|b.writes|);
    assert x[n + 12..] == EncodeWrites(a.writes) && y[n + 12..] == EncodeWrites(b.writes);
    assert y[n + 12..][..|x| - n - 12] == y[n + 12..|x|] == x[n + 12..];
    WritesPrefix(a.writes, b.writes);
  }

  /** Cutting a payload anywhere, or adding any bytes to it, makes it unacceptable. */
  lemma TruncatedOrTrailingRejected(rec: Record, buf: Bytes)
    requires Encodable(rec)
    requires buf < EncodePayload(rec) || EncodePayload(rec) < buf
    ensures DecodePayload(buf).None?
  {
    hide EncodePayload, DecodePayload;
    if DecodePayload(buf).Some? {
      DecodedPayloadIsEncoded(buf);
      var other := DecodePayload(buf).value;
      if buf < EncodePayload(rec) { PrefixFree(other, rec); } else { PrefixFree(rec, other); }
      assert false;
    }
  }

  /* ---------- The loops ---------- */

  lemma {:induction false} EncodeWritesAppend(ws: seq<(Bytes, Bytes)>, w: (Bytes, Bytes))
    ensures EncodeWrites(ws + [w]) == EncodeWrites(ws) + Str(w.0) + Str(w.1)
  {
    hide Str;
    if ws == [] {
      assert [w][1..] == [] && [] + [w] == [w];
    } else {
      assert (ws + [w])[1..] == ws[1..] + [w];
      EncodeWritesAppend(ws[1..], w);
    }
  }

  /** serialiseTransactionCommitPayload: the record of the write map, listed in some map order. */
  method SerialiseTransactionCommitPayload(writes: map<Bytes, Bytes>, txn: nat)
    returns (buf: Bytes, ghost order: seq<(Bytes, Bytes)>)
    ensures Listing(order, writes) && |order| == |writes|
    ensures buf == EncodePayload(Record(txn, order))
  {
    hide Str, U64, U32;
    buf := Str(CMD_TRANSACTION) + U64(txn) + U32(|writes|);
    ghost var header := buf;
    order := [];
    var keys := writes.Keys;
    assert |keys| == |writes|;
    while keys != {}
      invariant keys <= writes.Keys && |order| + |keys| == |writes|
      invariant buf == header + EncodeWrites(order)
      invariant forall i, j :: 0 <= i < j < |order| ==> order[i].0 != order[j].0
      invariant forall i :: 0 <= i < |order| ==> order[i].0 in writes && order[i].0 !in keys && writes[order[i].0] == order[i].1
      invariant forall k :: k in writes && k !in keys ==> (k, writes[k]) in order
      decreases keys
    {
      var k :| k in keys;
      EncodeWritesAppend(order, (k, writes[k]));
      buf := buf + Str(k) + Str(writes[k]);
      order := order + [(k, writes[k])];
      keys := keys - {k};
    }
    assert buf == Str(CMD_TRANSACTION) + (U64(txn) + U32(|order|) + EncodeWrites(order));
  }

  lemma PrependParsed(puts: seq<(Bytes, Bytes)>, w: (Bytes, Bytes), o: Option<Parsed>)
    ensures o.Some? ==> puts + ([w] + o.value.writes) == (puts + [w]) + o.value.writes
  {
  }

  lemma ReadWritesStuck(buf: Bytes, i: nat, n: nat)
    requires i <= |buf| && n > 0
    requires ReadString(buf, i).None? || ReadString(buf, i + 4 + |ReadString(buf, i).value|).None?
    ensures ReadWrites(buf, i, n).None?
  {
    hide ReadString;
  }

  lemma ReadWritesZero(buf: Bytes, i: nat)
    requires i <= |buf|
    ensures ReadWrites(buf, i, 0) == Some(Parsed([], i))
  {
  }

  function Prepend(puts: seq<(Bytes, Bytes)>, o: Option<Parsed>): Option<Parsed> {
    if o.None? then None else Some(Parsed(puts + o.value.writes, o.value.next))
  }

  /** The loop over the writes, with its moving offset. */
  method ReadPutCommands(buf: Bytes, start: nat, count: nat) returns (r: Option<Parsed>)
    requires start <= |buf|
    ensures r == ReadWrites(buf, start, count)
  {
    hide ReadString, ReadWrites;
    var offset := start;
    var puts: seq<(Bytes, Bytes)> := [];
    ghost var whole := ReadWrites(buf, start, count);
    assert whole.Some? ==> [] + whole.value.writes == whole.value.writes;
    for j := 0 to count
      invariant 0 <= offset <= |buf|
      invariant whole == Prepend(puts, ReadWrites(buf, offset, count - j))
    {
      ghost var from := offset;
      var key := ReadString(buf, offset);
      if key.None? {
        ReadWritesStuck(buf, from, count - j);
        return None;
      }
      offset := offset + 4 + |key.value|;
      var value := ReadString(buf, offset);
      if value.None? {
        ReadWritesStuck(buf, from, count - j);
        return None;
      }
      offset := offset + 4 + |value.value|;
      ReadWritesStep(buf, from, count - j, key.value, value.value, offset, count - j - 1);
      PrependParsed(puts, (key.value, value.value), ReadWrites(buf, offset, count - j - 1));
      puts := puts + [(key.value, value.value)];
    }
    ReadWritesZero(buf, offset);
    assert puts + [] == puts;
    return Some(Parsed(puts, offset));
  }

  /** deserialiseTransactionCommand. */
  method DeserialiseTransactionCommand(buf: Bytes) returns (r: Option<Record>)
    ensures r == DecodeBody(buf)
  {
    hide ReadWrites, FromU64, FromU32;
    if |buf| < 12 { return None; }
    var txn := FromU64(buf[..8]);
    var puts := ReadPutCommands(buf, 12, FromU32(buf[8..12]));
    if puts.None? || puts.value.next != |buf| { return None; }
    return Some(Record(txn, puts.value.writes));
  }
}
