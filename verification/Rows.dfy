/** Rows as stored bytes (db/db.go serialiseInsertIntoTableInput, db/select.go deserializeRowValues):
    INT as four bytes, STRING length-prefixed, BOOL as one byte. */
module Rows {
  import opened Bytes

  datatype DataType = Int | String | Bool

  /* ---------- Decimal numbers ---------- */

  predicate IsDigit(c: Byte) {
    48 <= c <= 57
  }

  predicate AllDigits(s: Bytes) {
    forall i :: 0 <= i < |s| ==> IsDigit(s[i])
  }

  /** strconv.FormatUint(n, 10). */
  function Format(n: nat): (r: Bytes)
    ensures |r| > 0 && AllDigits(r)
  {
    if n < 10 then [48 + n] else Format(n / 10) + [48 + n % 10]
  }

  /** The value of a run of digits. */
  function Digits(s: Bytes): nat
    requires AllDigits(s)
  {
    if s == [] then 0
    else
      var d: int := s[|s| - 1];
      assert IsDigit(s[|s| - 1]);
      Digits(s[..|s| - 1]) * 10 + (d - 48)
  }

  const MAX_INT: int := 0x7FFF_FFFF_FFFF_FFFF

  /** strconv.Atoi on 64-bit ints: an optional sign and at least one digit, in range. */
  function Atoi(s: Bytes): Option<int> {
    var signed := |s| > 0 && (s[0] == 43 || s[0] == 45);
    var body := if signed then s[1..] else s;
    if body == [] || !AllDigits(body) then None
    else
      var n: int := Digits(body);
      var v: int := if signed && s[0] == 45 then -n else n;
      if -MAX_INT - 1 <= v <= MAX_INT then Some(v) else None
  }

  lemma {:induction false} DigitsOfFormat(n: nat)
    ensures Digits(Format(n)) == n
  {
    var f := Format(n);
    if n < 10 {
      assert f[..0] == [];
    } else {
      DigitsOfFormat(n / 10);
      assert f[..|f| - 1] == Format(n / 10);
    }
  }

  lemma DigitsAre(s: Bytes)
    ensures AllDigits(s) <==> forall c <- s :: c in {48, 49, 50, 51, 52, 53, 54, 55, 56, 57}
  {
    if forall c <- s :: c in {48, 49, 50, 51, 52, 53, 54, 55, 56, 57} {
      forall i | 0 <= i < |s| ensures IsDigit(s[i]) { assert s[i] in s; }
    }
  }

  function Pow10(k: nat): nat {
    if k == 0 then 1 else 10 * Pow10(k - 1)
  }

  /** Digits count in tens from the right. */
  lemma {:induction false} DigitsJoin(a: Bytes, b: Bytes)
    requires AllDigits(a + b)
    ensures AllDigits(a) && AllDigits(b)
    ensures Digits(a + b) == Digits(a) * Pow10(|b|) + Digits(b)
    ensures |b| == 1 ==> Digits(b) == b[0] as int - 48
    decreases |b|
  {
    assert forall i :: 0 <= i < |a| ==> (a + b)[i] == a[i];
    assert forall i :: 0 <= i < |b| ==> (a + b)[|a| + i] == b[i];
    if b == [] {
      assert a + b == a;
    } else {
      var n := |b| - 1;
      assert (a + b)[..|a + b| - 1] == a + b[..n] && (a + b)[|a + b| - 1] == b[n];
      DigitsJoin(a, b[..n]);
      TimesTen(Digits(a), Pow10(n), Digits(b[..n]));
    }
  }

  lemma TimesTen(x: int, p: int, y: int)
    ensures (x * p + y) * 10 == x * (10 * p) + y * 10
  {
    assert (x * p) * 10 == x * (10 * p);
  }

  /** Zeros in front of a number change nothing: "007" is 7. */
  lemma {:induction false} LeadingZeros(zeros: Bytes, n: nat)
    requires forall i :: 0 <= i < |zeros| ==> zeros[i] == 48
    ensures AllDigits(zeros + Format(n))
    ensures Digits(zeros + Format(n)) == n
  {
    hide Format;
    assert AllDigits(zeros + Format(n));
    DigitsJoin(zeros, Format(n));
    DigitsOfFormat(n);
    AllZeros(zeros);
  }

  lemma {:induction false} AllZeros(zeros: Bytes)
    requires forall i :: 0 <= i < |zeros| ==> zeros[i] == 48
    ensures AllDigits(zeros)
    ensures Digits(zeros) == 0
    decreases |zeros|
  {
    if zeros != [] { AllZeros(zeros[..|zeros| - 1]); }
  }

  function Signed(sign: Bytes, n: int): int {
    if sign == [45] then -n else n
  }

  /** A text is a number exactly if it is an optional sign and digits whose value fits 64 bits. */
  lemma AtoiExactly(s: Bytes, v: int)
    ensures Atoi(s) == Some(v) <==>
              -0x8000_0000_0000_0000 <= v < 0x8000_0000_0000_0000
              && exists sign, body | sign in {[], [43], [45]} && body != [] && AllDigits(body) ::
                   s == sign + body && v == Signed(sign, Digits(body))
  {
    hide Digits;
    if Atoi(s) == Some(v) {
      var n := if s[0] == 43 || s[0] == 45 then 1 else 0;
      var sign, body := s[..n], s[n..];
      AtoiParts(s);
      assert n == 1 ==> sign == [s[0]];
      assert s == sign + body && v == Signed(sign, Digits(body));
    }
    forall sign, body | sign in {[], [43], [45]} && body != [] && AllDigits(body) && s == sign + body
      ensures Atoi(s) == if -MAX_INT - 1 <= Signed(sign, Digits(body)) <= MAX_INT then Some(Signed(sign, Digits(body))) else None
    {
      AtoiOf(sign, body);
    }
  }

  lemma AtoiParts(s: Bytes)
    requires Atoi(s).Some?
    ensures var n := if s[0] == 43 || s[0] == 45 then 1 else 0;
            |s| > n && AllDigits(s[n..])
            && Atoi(s).value == Signed(s[..n], Digits(s[n..]))
  {
    if s[0] == 43 || s[0] == 45 {
      assert s[1..] != [];
    } else {
      assert s[0..] == s;
    }
  }

  lemma AtoiOf(sign: Bytes, body: Bytes)
    requires sign in {[], [43], [45]} && body != [] && AllDigits(body)
    ensures var v := Signed(sign, Digits(body)); Atoi(sign + body) == if -MAX_INT - 1 <= v <= MAX_INT then Some(v) else None
  {
    hide Digits;
    var s := sign + body;
    if sign == [] {
      assert s == body && IsDigit(body[0]);
    } else {
      assert s[0] == sign[0] && s[1..] == body;
    }
  }

  lemma AtoiOfFormat(n: nat)
    requires n <= MAX_INT
    ensures Atoi(Format(n)) == Some(n)
  {
    DigitsOfFormat(n);
  }

  /** uint32(v): the low 32 bits, also of a negative number. */
  function Low32(v: int): (n: nat)
    ensures n < TWO_32
  {
    v % TWO_32
  }

  /** An INT text survives storage exactly if it is the plain decimal of a number below 2^32. */
  lemma IntSurvivesExactly(s: Bytes)
    requires Atoi(s).Some?
    ensures Format(Low32(Atoi(s).value)) == s <==> exists n: nat :: n < TWO_32 && s == Format(n)
  {
    hide Atoi, Format;
    if n: nat :| n < TWO_32 && s == Format(n) {
      AtoiOfFormat(n);
    }
  }

  /* ---------- One row ---------- */

  function EncodeValue(t: DataType, v: Bytes): Option<Bytes> {
    match t
    case Int => (var n := Atoi(v); if n.None? then None else Some(U32(Low32(n.value))))
    case String => Some(Str(v))
    case Bool =>
      (var n := Atoi(v);
       if n.None? || (n.value != 0 && n.value != 1) then None else Some([n.value]))
  }

  function EncodeRow(types: seq<DataType>, row: seq<Bytes>): Option<Bytes>
    requires |row| == |types|
  {
    if row == [] then Some([])
    else
      var v := EncodeValue(types[0], row[0]);
      var rest := EncodeRow(types[1..], row[1..]);
      if v.None? || rest.None? then None else Some(v.value + rest.value)
  }

  datatype Read = Read(value: Bytes, next: nat)

  /** FormatUint(b, 2). */
  function Binary(b: nat): Bytes {
    if b < 2 then [48 + b] else Binary(b / 2) + [48 + b % 2]
  }

  /** The number that a list of binary digits stands for. */
  function Bits(s: Bytes): int {
    if s == [] then 0 else 2 * Bits(s[..|s| - 1]) + (s[|s| - 1] as int - 48)
  }

  /** FormatUint to base two writes the binary digits of the number, the first of them a one. */
  lemma {:induction false} BinaryIs(b: nat)
    ensures (forall c <- Binary(b) :: c == 48 || c == 49) && Bits(Binary(b)) == b
    ensures b > 0 ==> Binary(b)[0] == 49
  {
    if b < 2 {
      assert Binary(b)[..0] == [];
    } else {
      BinaryIs(b / 2);
      assert Binary(b)[..|Binary(b)| - 1] == Binary(b / 2);
      assert Binary(b)[0] == Binary(b / 2)[0];
    }
  }

  /** One column of deserializeRowValues; None where it reports an error or would read past the end. */
  function DecodeValue(t: DataType, buf: Bytes, i: nat): (r: Option<Read>)
    requires i <= |buf|
    ensures r.Some? ==> i <= r.value.next <= |buf|
  {
    match t
    case Int => if i + 4 > |buf| then None else Some(Read(Format(FromU32(buf[i..i + 4])), i + 4))
    case String =>
      if i + 4 > |buf| then None
      else
        (var n := FromU32(buf[i..i + 4]);
         if i + 4 + n > |buf| then None else Some(Read(buf[i + 4..i + 4 + n], i + 4 + n)))
    case Bool => if i >= |buf| then None else (var b: int := buf[i]; Some(Read(Binary(b), i + 1)))
  }

  /** On any bytes: an INT is read as the decimal digits of its four bytes, a STRING as the text behind
      its length, a BOOL as the binary digits of its byte; each moves on behind what it read. */
  lemma ValueIsRead(buf: Bytes, i: nat)
    requires i <= |buf|
    ensures i + 4 <= |buf| ==>
              var r := DecodeValue(Int, buf, i);
              r.Some? && AllDigits(r.value.value) && Digits(r.value.value) == FromU32(buf[i..i + 4]) && r.value.next == i + 4
    ensures i < |buf| ==>
              var r := DecodeValue(Bool, buf, i);
              r.Some? && (forall c <- r.value.value :: c == 48 || c == 49) && Bits(r.value.value) == buf[i] && r.value.next == i + 1
    ensures i + 4 <= |buf| && i + 4 + FromU32(buf[i..i + 4]) <= |buf| ==>
              DecodeValue(String, buf, i) == Some(Read(buf[i + 4..i + 4 + FromU32(buf[i..i + 4])], i + 4 + FromU32(buf[i..i + 4])))
  {
    hide Format, FromU32;
    if i + 4 <= |buf| { DigitsOfFormat(FromU32(buf[i..i + 4])); }
    if i < |buf| { BinaryIs(buf[i]); }
  }

  function DecodeRow(types: seq<DataType>, buf: Bytes, i: nat): Option<seq<Bytes>>
    requires i <= |buf|
    decreases |types|
  {
    if types == [] then Some([])
    else
      var v := DecodeValue(types[0], buf, i);
      if v.None? then None
      else
        var rest := DecodeRow(types[1..], buf, v.value.next);
        if rest.None? then None else Some([v.value.value] + rest.value)
  }

  /** The texts that come back as they went in. */
  ghost predicate Canonical(t: DataType, v: Bytes) {
    match t
    case Int => exists n: nat :: n < TWO_32 && v == Format(n)
    case String => |v| < TWO_32
    case Bool => v == [48] || v == [49]
  }

  ghost predicate CanonicalRow(types: seq<DataType>, row: seq<Bytes>) {
    |row| == |types| && forall i :: 0 <= i < |row| ==> Canonical(types[i], row[i])
  }

  lemma IntSurvives(v: Bytes, x: Bytes, buf: Bytes, i: nat)
    requires EncodeValue(Int, v) == Some(x) && i + |x| <= |buf| && buf[i..i + |x|] == x
    ensures Canonical(Int, v) ==> DecodeValue(Int, buf, i) == Some(Read(v, i + |x|))
    ensures !Canonical(Int, v) ==> DecodeValue(Int, buf, i).value.value != v
  {
    hide Atoi, Format, U32, FromU32;
    var n := Low32(Atoi(v).value);
    U32RoundTrip(n);
    assert buf[i..i + 4] == U32(n);
    if Canonical(Int, v) {
      var m: nat :| m < TWO_32 && v == Format(m);
      AtoiOfFormat(m);
    }
  }

  lemma StringSurvives(v: Bytes, x: Bytes, buf: Bytes, i: nat)
    requires EncodeValue(String, v) == Some(x) && i + |x| <= |buf| && buf[i..i + |x|] == x
    ensures Canonical(String, v) ==> DecodeValue(String, buf, i) == Some(Read(v, i + |x|))
    ensures !Canonical(String, v) ==> DecodeValue(String, buf, i).None? || DecodeValue(String, buf, i).value.value != v
  {
    hide U32, FromU32;
    ThreeParts(buf, i, U32(|v|), v, []);
    if |v| < TWO_32 { U32RoundTrip(|v|); }
  }

  lemma BoolSurvives(v: Bytes, x: Bytes, buf: Bytes, i: nat)
    requires EncodeValue(Bool, v) == Some(x) && i + |x| <= |buf| && buf[i..i + |x|] == x
    ensures Canonical(Bool, v) ==> DecodeValue(Bool, buf, i) == Some(Read(v, i + |x|))
    ensures !Canonical(Bool, v) ==> DecodeValue(Bool, buf, i).value.value != v
  {
    assert buf[i] == x[0];
    if Canonical(Bool, v) {
      var d: nat := v[0] - 48;
      AtoiOfFormat(d);
      assert v == Format(d);
    }
  }

  /** A stored column comes back as written if its text is canonical, and differently or not at all if not. */
  lemma ValueSurvives(t: DataType, v: Bytes, x: Bytes, buf: Bytes, i: nat, post: Bytes)
    requires EncodeValue(t, v) == Some(x) && i <= |buf| && buf[i..] == x + post
    ensures i + |x| <= |buf| && buf[i + |x|..] == post
    ensures Canonical(t, v) ==> DecodeValue(t, buf, i) == Some(Read(v, i + |x|))
    ensures !Canonical(t, v) ==> DecodeValue(t, buf, i).None? || DecodeValue(t, buf, i).value.value != v
  {
    hide EncodeValue, DecodeValue, Canonical;
    var tail := buf[i..];
    assert tail[..|x|] == x && tail[|x|..] == post;
    assert buf[i..i + |x|] == tail[..|x|];
    assert buf[i + |x|..] == tail[|x|..];
    match t
    case Int => IntSurvives(v, x, buf, i);
    case String => StringSurvives(v, x, buf, i);
    case Bool => BoolSurvives(v, x, buf, i);
  }

  /** The insert accepts every canonical text. */
  lemma CanonicalEncodes(t: DataType, v: Bytes)
    requires Canonical(t, v)
    ensures EncodeValue(t, v).Some?
  {
    match t
    case Int =>
      var n: nat :| n < TWO_32 && v == Format(n);
      AtoiOfFormat(n);
    case String =>
    case Bool =>
      AtoiOfFormat(v[0] - 48);
      assert v == Format(v[0] - 48);
  }

  lemma {:induction false} CanonicalRowEncodes(types: seq<DataType>, row: seq<Bytes>)
    requires CanonicalRow(types, row)
    ensures EncodeRow(types, row).Some?
  {
    hide EncodeValue, Canonical;
    if row == [] {
    } else {
      CanonicalEncodes(types[0], row[0]);
      CanonicalRowEncodes(types[1..], row[1..]);
    }
  }

  lemma {:induction false} DecodeEncoded(types: seq<DataType>, row: seq<Bytes>, buf: Bytes, i: nat)
    requires |row| == |types| && i <= |buf| && EncodeRow(types, row) == Some(buf[i..])
    ensures DecodeRow(types, buf, i) == Some(row) <==> CanonicalRow(types, row)
  {
    hide EncodeValue, DecodeValue, Canonical;
    if row == [] {
    } else {
      var x, post := EncodeValue(types[0], row[0]).value, EncodeRow(types[1..], row[1..]).value;
      ValueSurvives(types[0], row[0], x, buf, i, post);
      assert row == [row[0]] + row[1..];
      assert CanonicalRow(types, row) <==> Canonical(types[0], row[0]) && CanonicalRow(types[1..], row[1..]);
      if Canonical(types[0], row[0]) {
        DecodeEncoded(types[1..], row[1..], buf, i + |x|);
      }
    }
  }

  /** Over whatever list of columns, an inserted row is read back as inserted exactly if each text is canonical. */
  lemma RowSurvivesExactly(types: seq<DataType>, row: seq<Bytes>)
    requires |row| == |types| && EncodeRow(types, row).Some?
    ensures DecodeRow(types, EncodeRow(types, row).value, 0) == Some(row) <==> CanonicalRow(types, row)
  {
    var buf := EncodeRow(types, row).value;
    assert buf[0..] == buf;
    DecodeEncoded(types, row, buf, 0);
  }

  /* ---------- The loops ---------- */

  method SerialiseRow(types: seq<DataType>, row: seq<Bytes>) returns (r: Option<Bytes>)
    requires |row| == |types|
    ensures r == EncodeRow(types, row)
  {
    hide EncodeValue;
    var buf: Bytes := [];
    ghost var whole := EncodeRow(types, row);
    assert types[0..] == types && row[0..] == row;
    assert whole.Some? ==> [] + whole.value == whole.value;
    for i := 0 to |row|
      invariant whole == match EncodeRow(types[i..], row[i..]) case None => None case Some(rest) => Some(buf + rest)
    {
      assert types[i..][1..] == types[i + 1..] && row[i..][1..] == row[i + 1..];
      var v := EncodeValue(types[i], row[i]);
      if v.None? { return None; }
      ghost var rest := EncodeRow(types[i + 1..], row[i + 1..]);
      assert rest.Some? ==> buf + (v.value + rest.value) == (buf + v.value) + rest.value;
      buf := buf + v.value;
    }
    assert buf + [] == buf;
    return Some(buf);
  }

  method DeserialiseRow(types: seq<DataType>, buf: Bytes) returns (r: Option<seq<Bytes>>)
    ensures r == DecodeRow(types, buf, 0)
  {
    hide DecodeValue;
    var i := 0;
    var row: seq<Bytes> := [];
    ghost var whole := DecodeRow(types, buf, 0);
    assert types[0..] == types;
    assert whole.Some? ==> [] + whole.value == whole.value;
    for j := 0 to |types|
      invariant 0 <= i <= |buf|
      invariant whole == match DecodeRow(types[j..], buf, i) case None => None case Some(rest) => Some(row + rest)
    {
      assert types[j..][0] == types[j] && types[j..][1..] == types[j + 1..];
      var v := DecodeValue(types[j], buf, i);
      if v.None? { return None; }
      ghost var rest := DecodeRow(types[j + 1..], buf, v.value.next);
      assert rest.Some? ==> row + ([v.value.value] + rest.value) == (row + [v.value.value]) + rest.value;
      row := row + [v.value.value];
      i := v.value.next;
    }
    assert row + [] == row;
    return Some(row);
  }
}
