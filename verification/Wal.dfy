/** The write-ahead log (wal/wal.go) and recovery from it (db/db.go, buildMemtableFromWal). */
module Wals {
  import opened Bytes
  import opened Mvcc
  import opened Memtables
  import opened Engine
  import opened TransactionCodec

  const MAX_PAYLOAD: nat := 1_000_000

  /* ---------- CRC-32 (section 8 of RFC 1952) ---------- */

  function CrcBits(crc: bv32, n: nat): bv32
    decreases n
  {
    if n == 0 then crc
    else CrcBits(if crc & 1 == 1 then (crc >> 1) ^ 0xEDB88320 else crc >> 1, n - 1)
  }

  function CrcByte(crc: bv32, c: Byte): bv32 {
    var x: int := c;
    CrcBits(crc ^ (x as bv32), 8)
  }

  function CrcUpdate(crc: bv32, b: Bytes): bv32 {
    if b == [] then crc else CrcByte(CrcUpdate(crc, b[..|b| - 1]), b[|b| - 1])
  }

  function Checksum(payload: Bytes): (c: nat)
    ensures c < TWO_32
  {
    (CrcUpdate(0xFFFFFFFF, payload) ^ 0xFFFFFFFF) as int
  }

  /* ---------- Frames ---------- */

  /** WriteEntry: [length][payload][checksum]. */
  function Frame(payload: Bytes): (r: Bytes)
    ensures |r| == |payload| + 8
  {
    U32(|payload|) + payload + U32(Checksum(payload))
  }

  function LogBytes(payloads: seq<Bytes>): Bytes {
    if payloads == [] then [] else LogBytes(payloads[..|payloads| - 1]) + Frame(payloads[|payloads| - 1])
  }

  datatype Outcome = Payload(payload: Bytes) | Eof | Broken

  /** io.ReadFull of n bytes at position pos: all of them, end of file, or a partial read. */
  function ReadFull(log: Bytes, pos: nat, n: nat): Outcome
    requires pos <= |log|
  {
    if pos + n <= |log| then Payload(log[pos..pos + n])
    else if pos == |log| then Eof
    else Broken
  }

  /** ReadEntry at a position. A log that ends right after a length or right after a payload
      is reported as end of file, not as a partial write. */
  function ReadEntryAt(log: Bytes, pos: nat): (o: Outcome)
    requires pos <= |log|
    ensures o.Payload? ==> pos + |o.payload| + 8 <= |log|
  {
    var length := ReadFull(log, pos, 4);
    if !length.Payload? then length
    else
      var n := FromU32(length.payload);
      if n > MAX_PAYLOAD then Broken
      else
        var payload := ReadFull(log, pos + 4, n);
        if !payload.Payload? then payload
        else
          var sum := ReadFull(log, pos + 4 + n, 4);
          if !sum.Payload? then sum
          else if FromU32(sum.payload) != Checksum(payload.payload) then Broken
          else payload
  }

  datatype Scan = Scan(payloads: seq<Bytes>, end: Outcome)

  /** Reading entries until the first one that is not there. */
  function ReadAll(log: Bytes, pos: nat): Scan
    requires pos <= |log|
    decreases |log| - pos
  {
    var o := ReadEntryAt(log, pos);
    if o.Payload? then
      var rest := ReadAll(log, pos + |o.payload| + 8);
      Scan([o.payload] + rest.payloads, rest.end)
    else Scan([], o)
  }

  /* ---------- Reading back what was written ---------- */

  lemma LogAppend(payloads: seq<Bytes>, p: Bytes)
    ensures LogBytes(payloads + [p]) == LogBytes(payloads) + Frame(p)
  {
  }

  lemma {:induction false} LogSplit(a: seq<Bytes>, b: seq<Bytes>)
    ensures LogBytes(a + b) == LogBytes(a) + LogBytes(b)
  {
    hide Frame;
    if b == [] {
      assert a + b == a;
    } else {
      var init, last := b[..|b| - 1], b[|b| - 1];
      LogSplit(a, init);
      assert b == init + [last] && a + b == (a + init) + [last];
      LogAppend(a + init, last);
      LogAppend(init, last);
    }
  }

  lemma FrameReads(log: Bytes, pos: nat, p: Bytes)
    requires pos + |Frame(p)| <= |log| && log[pos..pos + |Frame(p)|] == Frame(p)
    requires |p| < TWO_32
    ensures ReadEntryAt(log, pos) == if |p| <= MAX_PAYLOAD then Payload(p) else Broken
  {
    hide Checksum;
    ThreeParts(log, pos, U32(|p|), p, U32(Checksum(p)));
    U32RoundTrip(|p|);
    U32RoundTrip(Checksum(p));
  }

  /** A record is read from a position exactly if it stands there whole, its length, its bytes and their
      checksum, and is not above the limit. */
  lemma RecordReadExactly(log: Bytes, pos: nat, p: Bytes)
    requires pos <= |log|
    ensures ReadEntryAt(log, pos) == Payload(p) <==>
              |p| <= 1_000_000 && pos + |p| + 8 <= |log| && log[pos..pos + |p| + 8] == U32(|p|) + p + U32(Checksum(p))
  {
    hide Checksum, U32, FromU32;
    var n := |p|;
    if n <= 1_000_000 && pos + n + 8 <= |log| && log[pos..pos + n + 8] == U32(n) + p + U32(Checksum(p)) {
      FrameReads(log, pos, p);
    }
    if ReadEntryAt(log, pos) == Payload(p) {
      U32Onto(log[pos..pos + 4]);
      U32Onto(log[pos + 4 + n..pos + 8 + n]);
      ThreePieces(log, pos, pos + 4, pos + 4 + n, pos + 8 + n);
    }
  }

  /** The records of a log lie one behind the other, each as its length, its bytes and their checksum. */
  lemma LogLayout(payloads: seq<Bytes>, n: nat)
    requires n < |payloads|
    ensures var log, p, at := LogBytes(payloads), payloads[n], |LogBytes(payloads[..n])|;
            && |LogBytes(payloads[..n + 1])| == at + |p| + 8 <= |log| && |LogBytes(payloads[..0])| == 0
            && log[at..at + 4] == U32(|p|) && log[at + 4..at + 4 + |p|] == p && log[at + 4 + |p|..at + 8 + |p|] == U32(Checksum(p))
  {
    hide Checksum, U32;
    var p := payloads[n];
    assert payloads[..n + 1][..n] == payloads[..n];
    assert payloads[..n + 1] + payloads[n + 1..] == payloads;
    LogSplit(payloads[..n + 1], payloads[n + 1..]);
    var log, at := LogBytes(payloads), |LogBytes(payloads[..n])|;
    assert log == LogBytes(payloads[..n]) + Frame(p) + LogBytes(payloads[n + 1..]);
    assert log[at..at + |Frame(p)|] == Frame(p);
    ThreeParts(log, at, U32(|p|), p, U32(Checksum(p)));
  }

  lemma CrcTake(b: Bytes, n: nat)
    requires n < |b|
    ensures CrcUpdate(0xFFFFFFFF, b[..n + 1]) == CrcByte(CrcUpdate(0xFFFFFFFF, b[..n]), b[n])
  {
    hide CrcByte;
    assert b[..n + 1][..n] == b[..n];
  }

  /** The check value of CRC-32 (section 8 of RFC 1952): its value on the digits 1 to 9. */
  lemma CrcCheckValue()
    ensures Checksum([49, 50, 51, 52, 53, 54, 55, 56, 57]) == 0xCBF43926
  {
    hide CrcByte;
    var b: Bytes := [49, 50, 51, 52, 53, 54, 55, 56, 57];
    assert b[..0] == [] && b[..9] == b;
    CrcTake(b, 0);
    CrcTake(b, 1);
    CrcTake(b, 2);
    CrcTake(b, 3);
    CrcTake(b, 4);
    CrcTake(b, 5);
    CrcTake(b, 6);
    CrcTake(b, 7);
    CrcTake(b, 8);
    CrcDigits();
  }

  lemma CrcDigits()
    ensures CrcByte(0xFFFFFFFF, 49) == 0x7C231048
    ensures CrcByte(0x7C231048, 50) == 0xB0ACBB32
    ensures CrcByte(0xB0ACBB32, 51) == 0x77B79C2D
    ensures CrcByte(0x77B79C2D, 52) == 0x641C1F5C
    ensures CrcByte(0x641C1F5C, 53) == 0x340AC5E3
    ensures CrcByte(0x340AC5E3, 54) == 0xF68D2C9E
    ensures CrcByte(0xF68D2C9E, 55) == 0xAFFC9660
    ensures CrcByte(0xAFFC9660, 56) == 0x651F2550
    ensures CrcByte(0x651F2550, 57) == 0x340BC6D9
  {
    assert 49 as bv32 == 0x31 && CrcBits(0xFFFFFFCE, 8) == 0x7C231048;
    assert 50 as bv32 == 0x32 && CrcBits(0x7C23107A, 8) == 0xB0ACBB32;
    assert 51 as bv32 == 0x33 && CrcBits(0xB0ACBB01, 8) == 0x77B79C2D;
    assert 52 as bv32 == 0x34 && CrcBits(0x77B79C19, 8) == 0x641C1F5C;
    assert 53 as bv32 == 0x35 && CrcBits(0x641C1F69, 8) == 0x340AC5E3;
    assert 54 as bv32 == 0x36 && CrcBits(0x340AC5D5, 8) == 0xF68D2C9E;
    assert 55 as bv32 == 0x37 && CrcBits(0xF68D2CA9, 8) == 0xAFFC9660;
    assert 56 as bv32 == 0x38 && CrcBits(0xAFFC9658, 8) == 0x651F2550;
    assert 57 as bv32 == 0x39 && CrcBits(0x651F2569, 8) == 0x340BC6D9;
  }

  /** A frame cut short: nothing is read, and only three cuts look like a clean end. */
  lemma CutFrameReads(log: Bytes, pos: nat, p: Bytes, rem: nat)
    requires |p| <= MAX_PAYLOAD && rem < |Frame(p)| && pos + rem == |log| && log[pos..] == Frame(p)[..rem]
    ensures ReadEntryAt(log, pos) == if rem == 0 || rem == 4 || rem == 4 + |p| then Eof else Broken
  {
    hide Checksum;
    if rem >= 4 {
      var piece := log[pos..];
      assert log[pos..pos + 4] == piece[..4] == Frame(p)[..4] == U32(|p|);
      U32RoundTrip(|p|);
    }
  }

  /** Number of frames wholly inside the first cut bytes. */
  function WholeFrames(payloads: seq<Bytes>, cut: nat): (n: nat)
    ensures n <= |payloads|
  {
    if payloads == [] then 0
    else if |LogBytes(payloads)| <= cut then |payloads|
    else WholeFrames(payloads[..|payloads| - 1], cut)
  }

  lemma {:induction false} WholeFramesAre(payloads: seq<Bytes>, cut: nat)
    ensures var n := WholeFrames(payloads, cut);
            && |LogBytes(payloads[..n])| <= cut
            && (n < |payloads| ==> cut < |LogBytes(payloads[..n + 1])|)
  {
    hide LogBytes;
    EmptyLog();
    assert payloads[..|payloads|] == payloads;
    if payloads != [] && |LogBytes(payloads)| > cut {
      var init := payloads[..|payloads| - 1];
      WholeFramesAre(init, cut);
      var n := WholeFrames(payloads, cut);
      assert init[..n] == payloads[..n];
      if n < |init| { assert init[..n + 1] == payloads[..n + 1]; }
    }
  }

  ghost predicate Readable(payloads: seq<Bytes>) {
    forall i :: 0 <= i < |payloads| ==> |payloads[i]| <= 1_000_000
  }

  /** Where a cut log's scan ends. */
  function CutEnd(payloads: seq<Bytes>, cut: nat): Outcome
  {
    var n := WholeFrames(payloads, cut);
    var rem := cut - |LogBytes(payloads[..n])|;
    if rem == 0 || rem == 4 || (n < |payloads| && rem == 4 + |payloads[n]|) then Eof else Broken
  }

  lemma {:induction false} ReadAllFrom(payloads: seq<Bytes>, cut: nat, i: nat)
    requires cut <= |LogBytes(payloads)| && Readable(payloads)
    requires i <= WholeFrames(payloads, cut)
    ensures |LogBytes(payloads[..i])| <= cut
    ensures ReadAll(LogBytes(payloads)[..cut], |LogBytes(payloads[..i])|) ==
            Scan(payloads[i..WholeFrames(payloads, cut)], CutEnd(payloads, cut))
    decreases |payloads| - i
  {
    hide Frame, ReadEntryAt, WholeFrames, LogBytes;
    var n := WholeFrames(payloads, cut);
    var all := LogBytes(payloads);
    var log := all[..cut];
    WholeFramesAre(payloads, cut);
    LogPrefixMonotone(payloads, i, n);
    var pos := |LogBytes(payloads[..i])|;
    if i < n {
      FrameInLog(payloads, i);
      LogPrefixMonotone(payloads, i + 1, n);
      assert log[pos..pos + |Frame(payloads[i])|] == all[pos..pos + |Frame(payloads[i])|];
      FrameReads(log, pos, payloads[i]);
      ReadAllFrom(payloads, cut, i + 1);
      assert payloads[i..n] == [payloads[i]] + payloads[i + 1..n];
    } else {
      CutFrameAt(payloads, cut);
      assert payloads[i..n] == [];
    }
  }

  lemma LogPrefixMonotone(payloads: seq<Bytes>, i: nat, j: nat)
    requires i <= j <= |payloads|
    ensures |LogBytes(payloads[..i])| <= |LogBytes(payloads[..j])|
  {
    hide Frame;
    LogSplit(payloads[..i], payloads[i..j]);
    assert payloads[..i] + payloads[i..j] == payloads[..j];
  }

  lemma FrameInLog(payloads: seq<Bytes>, i: nat)
    requires i < |payloads|
    ensures var all, pos, f := LogBytes(payloads), |LogBytes(payloads[..i])|, Frame(payloads[i]);
            && pos + |f| == |LogBytes(payloads[..i + 1])| <= |all|
            && all[pos..pos + |f|] == f
  {
    hide Frame;
    assert payloads[..i + 1] == payloads[..i] + [payloads[i]];
    LogAppend(payloads[..i], payloads[i]);
    assert payloads == payloads[..i + 1] + payloads[i + 1..];
    LogSplit(payloads[..i + 1], payloads[i + 1..]);
  }

  /** What is left after the last whole frame reads as the end that CutEnd names. */
  lemma CutFrameAt(payloads: seq<Bytes>, cut: nat)
    requires cut <= |LogBytes(payloads)| && Readable(payloads)
    ensures var n := WholeFrames(payloads, cut);
            && |LogBytes(payloads[..n])| <= cut
            && ReadEntryAt(LogBytes(payloads)[..cut], |LogBytes(payloads[..n])|) == CutEnd(payloads, cut)
    ensures !CutEnd(payloads, cut).Payload?
  {
    hide Frame, LogBytes;
    var n := WholeFrames(payloads, cut);
    WholeFramesAre(payloads, cut);
    var all := LogBytes(payloads);
    var log, pos := all[..cut], |LogBytes(payloads[..n])|;
    var rem := cut - pos;
    if n < |payloads| {
      FrameInLog(payloads, n);
      var f := Frame(payloads[n]);
      CutSlice(all, pos, |f|, cut);
      CutFrameReads(log, pos, payloads[n], rem);
    } else {
      assert payloads[..n] == payloads;
    }
  }

  /** For every truncation of a log, reading yields exactly the records wholly inside the cut,
      and then a clean end or an error. */
  lemma TruncatedLogReads(payloads: seq<Bytes>, cut: nat)
    requires cut <= |LogBytes(payloads)| && Readable(payloads)
    ensures ReadAll(LogBytes(payloads)[..cut], 0) == Scan(payloads[..WholeFrames(payloads, cut)], CutEnd(payloads, cut))
  {
    ReadAllFrom(payloads, cut, 0);
    assert payloads[..0] == [];
    assert payloads[0..WholeFrames(payloads, cut)] == payloads[..WholeFrames(payloads, cut)];
  }

  /* ---------- Recovery ---------- */

  datatype Recovered = Recovered(mem: seq<Version>, maxTxnId: TxnId)

  /** buildMemtableFromWal on the payloads read: None at the first one that is not a
      well-formed transaction. */
  function Rebuild(payloads: seq<Bytes>): Option<Recovered> {
    if payloads == [] then Some(Recovered([], 0))
    else
      var before := Rebuild(payloads[..|payloads| - 1]);
      var rec := DecodePayload(payloads[|payloads| - 1]);
      if before.None? || rec.None? then None
      else
        var id := rec.value.txn;
        Some(Recovered(PutAll(before.value.mem, rec.value.writes, id), if id > before.value.maxTxnId then id else before.value.maxTxnId))
  }

  function Recover(log: Bytes): Option<Recovered> {
    var scan := ReadAll(log, 0);
    if scan.end == Eof then Rebuild(scan.payloads) else None
  }

  function Payloads(records: seq<Record>): (r: seq<Bytes>)
    ensures |r| == |records|
    ensures forall i :: 0 <= i < |records| ==> r[i] == EncodePayload(records[i])
  {
    seq(|records|, i requires 0 <= i < |records| => EncodePayload(records[i]))
  }

  ghost predicate AllEncodable(records: seq<Record>) {
    forall i :: 0 <= i < |records| ==> Encodable(records[i]) && |EncodePayload(records[i])| < TWO_32
  }

  lemma {:induction false} RebuildIsReplay(records: seq<Record>)
    requires AllEncodable(records)
    ensures Rebuild(Payloads(records)) == Some(Recovered(Replay(records), MaxId(records)))
  {
    hide EncodePayload, DecodePayload;
    if records == [] {
    } else {
      var init, last := records[..|records| - 1], records[|records| - 1];
      RebuildIsReplay(init);
      assert Payloads(records)[..|records| - 1] == Payloads(init);
      PayloadRoundTrip(last);
    }
  }

  /** Crash atomicity: cut the log of committed transactions at any byte. If recovery succeeds,
      the memtable holds exactly the transactions whose records lie wholly inside the cut, each
      with all its writes; and it succeeds exactly if the cut falls on a record border, right
      after a length or right after a payload. */
  lemma CrashAtomicity(records: seq<Record>, cut: nat)
    requires AllEncodable(records) && Readable(Payloads(records)) && cut <= |LogBytes(Payloads(records))|
    ensures var n := WholeFrames(Payloads(records), cut);
            Recover(LogBytes(Payloads(records))[..cut]) ==
            if CutEnd(Payloads(records), cut) == Eof then Some(Recovered(Replay(records[..n]), MaxId(records[..n]))) else None
  {
    hide LogBytes, EncodePayload, WholeFrames, CutEnd, ReadAll;
    var ps := Payloads(records);
    var n := WholeFrames(ps, cut);
    TruncatedLogReads(ps, cut);
    assert ps[..n] == Payloads(records[..n]);
    RebuildIsReplay(records[..n]);
  }

  /** The writer does not check the size the reader insists on: an uncut log can be recovered
      exactly if no payload exceeds the limit. */
  lemma UncutLogRecoversExactly(records: seq<Record>)
    requires AllEncodable(records)
    ensures Recover(LogBytes(Payloads(records))).Some? <==> Readable(Payloads(records))
    ensures Readable(Payloads(records)) ==>
              Recover(LogBytes(Payloads(records))) == Some(Recovered(Replay(records), MaxId(records)))
  {
    hide EncodePayload, LogBytes, ReadAll;
    var ps := Payloads(records);
    if Readable(ps) {
      var cut := |LogBytes(ps)|;
      CrashAtomicity(records, cut);
      assert LogBytes(ps)[..cut] == LogBytes(ps);
      WholeIsAll(ps);
      assert records[..|records|] == records;
    } else {
      EmptyLog();
      assert ps[..0] == [];
      OversizeStops(ps, 0);
    }
  }

  lemma EmptyLog()
    ensures LogBytes([]) == []
  {
  }

  lemma WholeIsAll(ps: seq<Bytes>)
    ensures WholeFrames(ps, |LogBytes(ps)|) == |ps| && CutEnd(ps, |LogBytes(ps)|) == Eof
  {
    hide Frame;
    assert ps[..|ps|] == ps;
  }

  lemma {:induction false} OversizeStops(ps: seq<Bytes>, i: nat)
    requires forall j :: 0 <= j < |ps| ==> |ps[j]| < TWO_32
    requires i < |ps| && !Readable(ps) && Readable(ps[..i])
    ensures |LogBytes(ps[..i])| <= |LogBytes(ps)|
    ensures ReadAll(LogBytes(ps), |LogBytes(ps[..i])|).end == Broken
    decreases |ps| - i
  {
    hide Frame, LogBytes, ReadEntryAt;
    FrameInLog(ps, i);
    FrameReads(LogBytes(ps), |LogBytes(ps[..i])|, ps[i]);
    if |ps[i]| <= MAX_PAYLOAD {
      assert ps[..i + 1] == ps[..i] + [ps[i]];
      assert ps[..|ps|] == ps;
      OversizeStops(ps, i + 1);
    }
  }

  /* ---------- Opening a cut log ---------- */

  /** Frames of which at least a byte lies inside the cut. */
  function TouchedFrames(ps: seq<Bytes>, cut: nat): (n: nat)
    ensures n <= |ps|
  {
    var n := WholeFrames(ps, cut);
    if n < |ps| && |LogBytes(ps[..n])| < cut then n + 1 else n
  }

  /** The cut falls on a border, after a length or after a payload, and no frame it touches is too large. */
  ghost predicate OpensAt(ps: seq<Bytes>, cut: nat) {
    CutEnd(ps, cut) == Eof && Readable(ps[..TouchedFrames(ps, cut)])
  }

  /** Frames behind the cut do not matter. */
  lemma CutInPrefix(ps: seq<Bytes>, cut: nat, q: nat)
    requires cut <= |LogBytes(ps)| && TouchedFrames(ps, cut) <= q <= |ps|
    ensures cut <= |LogBytes(ps[..q])| && LogBytes(ps[..q])[..cut] == LogBytes(ps)[..cut]
    ensures WholeFrames(ps[..q], cut) == WholeFrames(ps, cut) && CutEnd(ps[..q], cut) == CutEnd(ps, cut)
  {
    hide LogBytes, WholeFrames;
    var n := WholeFrames(ps, cut);
    WholeFramesAre(ps, cut);
    assert ps[..|ps|] == ps;
    assert cut <= |LogBytes(ps[..TouchedFrames(ps, cut)])|;
    LogPrefixMonotone(ps, TouchedFrames(ps, cut), q);
    LogSplit(ps[..q], ps[q..]);
    assert ps[..q] + ps[q..] == ps;
    SameWholeFrames(ps, cut, q);
    assert ps[..q][..n] == ps[..n];
  }

  lemma {:induction false} SameWholeFrames(ps: seq<Bytes>, cut: nat, q: nat)
    requires WholeFrames(ps, cut) <= q <= |ps|
    ensures WholeFrames(ps[..q], cut) == WholeFrames(ps, cut)
    decreases |ps|
  {
    hide LogBytes;
    if q == |ps| {
      assert ps[..q] == ps;
    } else {
      var init := ps[..|ps| - 1];
      assert init[..q] == ps[..q];
      SameWholeFrames(init, cut, q);
    }
  }

  /** A frame that is too large, of which the cut leaves at least a byte, stops the scan with an error. */
  lemma CutOversize(log: Bytes, pos: nat, p: Bytes, rem: nat)
    requires MAX_PAYLOAD < |p| < TWO_32
    requires 0 < rem <= |Frame(p)| && pos + rem <= |log| && log[pos..pos + rem] == Frame(p)[..rem]
    requires rem < |Frame(p)| ==> pos + rem == |log|
    ensures ReadEntryAt(log, pos) == Broken
  {
    hide Checksum;
    if rem >= 4 {
      var piece := log[pos..pos + rem];
      assert log[pos..pos + 4] == piece[..4] == Frame(p)[..4] == U32(|p|);
      U32RoundTrip(|p|);
    }
  }

  lemma {:induction false} OversizeInCut(ps: seq<Bytes>, cut: nat, i: nat)
    requires forall j :: 0 <= j < |ps| ==> |ps[j]| < TWO_32
    requires cut <= |LogBytes(ps)| && i < TouchedFrames(ps, cut)
    requires Readable(ps[..i]) && !Readable(ps[..TouchedFrames(ps, cut)])
    ensures |LogBytes(ps[..i])| <= cut
    ensures ReadAll(LogBytes(ps)[..cut], |LogBytes(ps[..i])|).end == Broken
    decreases |ps| - i
  {
    hide Frame, LogBytes, ReadEntryAt, WholeFrames;
    var n, all := WholeFrames(ps, cut), LogBytes(ps);
    var log, pos := all[..cut], |LogBytes(ps[..i])|;
    WholeFramesAre(ps, cut);
    LogPrefixMonotone(ps, i, n);
    FrameInLog(ps, i);
    var f := Frame(ps[i]);
    if i < n {
      LogPrefixMonotone(ps, i + 1, n);
      assert log[pos..pos + |f|] == all[pos..pos + |f|];
      FrameReads(log, pos, ps[i]);
      if |ps[i]| <= MAX_PAYLOAD {
        assert ps[..i + 1] == ps[..i] + [ps[i]];
        OversizeInCut(ps, cut, i + 1);
      }
    } else {
      assert ps[..i + 1] == ps[..i] + [ps[i]];
      CutSlice(all, pos, |f|, cut);
      assert log[pos..pos + (cut - pos)] == log[pos..];
      CutOversize(log, pos, ps[i], cut - pos);
    }
  }

  /** Opening a log cut at any byte, whatever its records: it succeeds exactly at the three kinds of
      clean cut, with no frame too large, and recovers the records wholly inside the cut. */
  lemma CutLogRecoversExactly(records: seq<Record>, cut: nat)
    requires AllEncodable(records) && cut <= |LogBytes(Payloads(records))|
    ensures var ps := Payloads(records);
            var n := WholeFrames(ps, cut);
            Recover(LogBytes(ps)[..cut]) == if OpensAt(ps, cut) then Some(Recovered(Replay(records[..n]), MaxId(records[..n]))) else None
  {
    hide LogBytes, EncodePayload, WholeFrames, CutEnd, ReadAll;
    var ps := Payloads(records);
    var q := TouchedFrames(ps, cut);
    var n := WholeFrames(ps, cut);
    if Readable(ps[..q]) {
      CutInPrefix(ps, cut, q);
      assert Payloads(records[..q]) == ps[..q];
      CrashAtomicity(records[..q], cut);
      assert records[..q][..n] == records[..n];
    } else {
      EmptyLog();
      assert ps[..0] == [];
      OversizeInCut(ps, cut, 0);
    }
  }

  /* ---------- Commits after opening a cut log ---------- */

  /** The writer appends behind whatever is in the file. Behind a cut on a record border that is a log
      again, and later recoveries find the records before the cut and the new ones. */
  lemma CommitsAfterBorder(records: seq<Record>, n: nat, more: seq<Record>)
    requires AllEncodable(records) && AllEncodable(more) && n <= |records|
    ensures var all := records[..n] + more;
            && LogBytes(Payloads(records[..n])) + LogBytes(Payloads(more)) == LogBytes(Payloads(all))
            && (Recover(LogBytes(Payloads(records[..n])) + LogBytes(Payloads(more))) ==
                if Readable(Payloads(all)) then Some(Recovered(Replay(all), MaxId(all))) else None)
  {
    hide LogBytes, Recover, EncodePayload;
    var all := records[..n] + more;
    LogSplit(Payloads(records[..n]), Payloads(more));
    assert Payloads(records[..n]) + Payloads(more) == Payloads(all);
    UncutLogRecoversExactly(all);
  }

  lemma FrameSize(p: Bytes)
    ensures |Frame(p)| == |p| + 8
  {
  }

  /** Past whole readable frames the scan depends on what is behind them alone. */
  lemma {:induction false} ScanBehind(ps: seq<Bytes>, tail: Bytes, i: nat)
    requires Readable(ps) && i <= |ps|
    ensures |LogBytes(ps[..i])| <= |LogBytes(ps)|
    ensures var rest := ReadAll(LogBytes(ps) + tail, |LogBytes(ps)|);
            ReadAll(LogBytes(ps) + tail, |LogBytes(ps[..i])|) == Scan(ps[i..] + rest.payloads, rest.end)
    decreases |ps| - i
  {
    hide Frame, LogBytes, ReadEntryAt, ReadAll;
    var log, pos := LogBytes(ps) + tail, |LogBytes(ps[..i])|;
    var rest := ReadAll(log, |LogBytes(ps)|);
    if i == |ps| {
      assert ps[..i] == ps;
      assert ps[i..] + rest.payloads == rest.payloads;
    } else {
      FrameInLog(ps, i);
      assert log[pos..pos + |Frame(ps[i])|] == LogBytes(ps)[pos..pos + |Frame(ps[i])|];
      FrameReads(log, pos, ps[i]);
      ReadAllStep(log, pos);
      FrameSize(ps[i]);
      ScanBehind(ps, tail, i + 1);
      assert ps[i..] + rest.payloads == [ps[i]] + (ps[i + 1..] + rest.payloads);
    }
  }

  lemma BrokenBehind(ps: seq<Bytes>, tail: Bytes)
    requires Readable(ps) && ReadEntryAt(LogBytes(ps) + tail, |LogBytes(ps)|) == Broken
    ensures Recover(LogBytes(ps) + tail) == None
  {
    hide LogBytes, ReadEntryAt;
    EmptyLog();
    assert ps[..0] == [];
    ScanBehind(ps, tail, 0);
  }

  /** Past whole records a clean end recovers exactly them. */
  lemma CleanBehind(records: seq<Record>, tail: Bytes)
    requires AllEncodable(records) && Readable(Payloads(records))
    requires var ps := Payloads(records); ReadEntryAt(LogBytes(ps) + tail, |LogBytes(ps)|) == Eof
    ensures Recover(LogBytes(Payloads(records)) + tail) == Some(Recovered(Replay(records), MaxId(records)))
  {
    hide LogBytes, ReadEntryAt, EncodePayload;
    var ps := Payloads(records);
    EmptyLog();
    assert ps[..0] == [];
    ScanBehind(ps, tail, 0);
    assert ps + [] == ps && ps[0..] == ps;
    RebuildIsReplay(records);
  }

  /* A torn payload takes the place of the records that follow it. Nothing it can be read as is a
     transaction, whatever its checksum. */

  /** A record's payload begins with the length and the text of the command. */
  lemma PayloadShape(rec: Record)
    ensures |EncodePayload(rec)| >= 27
    ensures EncodePayload(rec)[..4] == U32(11) && EncodePayload(rec)[4..15] == CMD_TRANSACTION
  {
  }

  /** A string of another length in front is another command. */
  lemma OtherCommand(x: Bytes, n: nat)
    requires n < TWO_32 && n != 11 && |x| >= 4 && x[..4] == U32(n)
    ensures DecodePayload(x).None?
  {
    hide U32, FromU32;
    U32RoundTrip(n);
    assert x[0..4] == x[..4];
  }

  /** The bare command text is no payload: its first four bytes are no length it could have. */
  lemma BareCommand()
    ensures DecodePayload(CMD_TRANSACTION).None?
  {
    assert CMD_TRANSACTION[0..4] == [84, 82, 65, 78];
  }

  lemma {:induction false} OneBadPayload(payloads: seq<Bytes>, i: nat)
    requires i < |payloads| && DecodePayload(payloads[i]).None?
    ensures Rebuild(payloads).None?
  {
    hide DecodePayload;
    if i == |payloads| - 1 {
    } else {
      OneBadPayload(payloads[..|payloads| - 1], i);
    }
  }

  /** A payload read behind the whole records that is no transaction makes recovery fail. */
  lemma BadPayloadBehind(ps: seq<Bytes>, tail: Bytes, x: Bytes)
    requires Readable(ps) && DecodePayload(x).None?
    requires ReadEntryAt(LogBytes(ps) + tail, |LogBytes(ps)|) == Payload(x)
    ensures Recover(LogBytes(ps) + tail) == None
  {
    hide LogBytes, ReadEntryAt, ReadAll, DecodePayload, Rebuild;
    var log, pos := LogBytes(ps) + tail, |LogBytes(ps)|;
    EmptyLog();
    assert ps[..0] == [];
    ScanBehind(ps, tail, 0);
    ReadAllStep(log, pos);
    var rest := ReadAll(log, pos);
    assert (ps[0..] + rest.payloads)[|ps|] == x;
    OneBadPayload(ps[0..] + rest.payloads, |ps|);
  }

  /** The same for the second payload read behind them. */
  lemma SecondPayloadBehind(ps: seq<Bytes>, tail: Bytes, p: Bytes, o: Outcome)
    requires Readable(ps) && ReadEntryAt(LogBytes(ps) + tail, |LogBytes(ps)|) == Payload(p)
    requires |LogBytes(ps)| + |p| + 8 <= |LogBytes(ps) + tail|
    requires o == ReadEntryAt(LogBytes(ps) + tail, |LogBytes(ps)| + |p| + 8)
    requires o == Broken || (o.Payload? && DecodePayload(o.payload).None?)
    ensures Recover(LogBytes(ps) + tail) == None
  {
    hide LogBytes, ReadEntryAt, ReadAll, DecodePayload, Rebuild;
    var log, pos := LogBytes(ps) + tail, |LogBytes(ps)|;
    EmptyLog();
    assert ps[..0] == [];
    ScanBehind(ps, tail, 0);
    ReadAllStep(log, pos);
    ReadAllStep(log, pos + |p| + 8);
    var all := ps[0..] + ReadAll(log, pos).payloads;
    if o.Payload? {
      assert all[|ps| + 1] == o.payload;
      OneBadPayload(all, |ps| + 1);
    }
  }

  /** What is read where a length stands in front of other bytes. */
  lemma LengthThen(before: Bytes, n: nat, tail: Bytes)
    requires n <= MAX_PAYLOAD
    ensures var o := ReadEntryAt(before + (U32(n) + tail), |before|);
            && (tail == [] && n > 0 ==> o == Eof)
            && (0 < |tail| < n ==> o == Broken)
            && (|tail| == n ==> o == Eof)
            && (n < |tail| < n + 4 ==> o == Broken)
            && (n + 4 <= |tail| ==> o == if FromU32(tail[n..n + 4]) == Checksum(tail[..n]) then Payload(tail[..n]) else Broken)
  {
    hide U32, FromU32, Checksum;
    var log, at := before + (U32(n) + tail), |before|;
    U32RoundTrip(n);
    assert log[at..at + 4] == U32(n);
    if n <= |tail| { assert log[at + 4..at + 4 + n] == tail[..n]; }
    if n + 4 <= |tail| { assert log[at + 4 + n..at + 8 + n] == tail[n..n + 4]; }
  }

  /** A log that is not empty begins with the length of its first payload. */
  lemma LogStarts(payloads: seq<Bytes>)
    requires payloads != []
    ensures |LogBytes(payloads)| >= |payloads[0]| + 8
    ensures Frame(payloads[0]) <= LogBytes(payloads)
  {
    hide Frame;
    LogSplit([payloads[0]], payloads[1..]);
    assert payloads == [payloads[0]] + payloads[1..];
    assert [payloads[0]] == [] + [payloads[0]];
    LogAppend([], payloads[0]);
    EmptyLog();
    FrameSize(payloads[0]);
  }

  /** Behind a cut after a length the new records are taken for the missing payload. The next opening
      fails, except when they are together just as long as that payload: then they are dropped. */
  lemma CommitsAfterLengthAreLost(records: seq<Record>, torn: Record, more: seq<Record>)
    requires AllEncodable(records) && AllEncodable(more) && Readable(Payloads(records)) && more != []
    requires |EncodePayload(torn)| <= MAX_PAYLOAD
    ensures var p, tail := EncodePayload(torn), LogBytes(Payloads(more));
            Recover(LogBytes(Payloads(records)) + (U32(|p|) + tail)) ==
            if |tail| == |p| then Some(Recovered(Replay(records), MaxId(records))) else None
  {
    hide LogBytes, EncodePayload, Checksum, Recover, Frame, U32, FromU32, DecodePayload;
    var ps, p, r := Payloads(records), EncodePayload(torn), EncodePayload(more[0]);
    var before, tail := LogBytes(ps), LogBytes(Payloads(more));
    LengthThen(before, |p|, tail);
    LogStarts(Payloads(more));
    PayloadShape(torn);
    PayloadShape(more[0]);
    if |tail| == |p| {
      CleanBehind(records, U32(|p|) + tail);
    } else {
      var o := ReadEntryAt(before + (U32(|p|) + tail), |before|);
      if o == Broken {
        BrokenBehind(ps, U32(|p|) + tail);
      } else {
        FrameHead(r);
        assert tail[..|p|][..4] == tail[..4] == Frame(r)[..4];
        OtherCommand(tail[..|p|], |r|);
        BadPayloadBehind(ps, U32(|p|) + tail, tail[..|p|]);
      }
    }
  }

  lemma FrameHead(p: Bytes)
    ensures Frame(p)[..4] == U32(|p|) && Frame(p)[4..] == p + U32(Checksum(p))
  {
    hide U32, Checksum;
  }

  /** Behind a cut after a payload the length of the first new record is taken for its checksum. The
      next opening fails: where the two agree, what is read next is the bare command text. */
  lemma CommitsAfterPayloadAreLost(records: seq<Record>, torn: Record, q: Record, more: Bytes)
    requires AllEncodable(records) && Readable(Payloads(records)) && |EncodePayload(torn)| <= MAX_PAYLOAD
    requires Encodable(q) && |EncodePayload(q)| < TWO_32
    ensures var p := EncodePayload(torn);
            Recover(LogBytes(Payloads(records)) + (U32(|p|) + p + (Frame(EncodePayload(q)) + more))) == None
  {
    hide LogBytes, EncodePayload, Checksum, Recover, Frame, U32, FromU32, DecodePayload, ReadEntryAt;
    var ps, p, r := Payloads(records), EncodePayload(torn), EncodePayload(q);
    var before, all := LogBytes(ps), U32(|p|) + (p + (Frame(r) + more));
    assert U32(|p|) + p + (Frame(r) + more) == all;
    PayloadShape(q);
    var text := TextBehind(r, more);
    LengthThen(before, |p|, p + (Frame(r) + more));
    TornPayload(p, Frame(r) + more);
    if ReadEntryAt(before + all, |before|) == Broken {
      BrokenBehind(ps, all);
    } else {
      var head := before + (U32(|p|) + p + U32(|r|));
      assert before + all == head + (U32(11) + text);
      LengthThen(head, 11, text);
      BareCommand();
      SecondPayloadBehind(ps, all, p, ReadEntryAt(before + all, |head|));
    }
  }

  lemma TornPayload(p: Bytes, rest: Bytes)
    ensures (p + rest)[..|p|] == p
  {
  }

  /** Behind its length, a frame reads as a length of eleven and the command text. */
  lemma TextBehind(r: Bytes, more: Bytes) returns (text: Bytes)
    requires |r| >= 27 && r[..4] == U32(11) && r[4..15] == CMD_TRANSACTION
    ensures Frame(r) + more == U32(|r|) + (U32(11) + text)
    ensures |text| >= 15 && text[..11] == CMD_TRANSACTION
  {
    hide U32, Checksum;
    text := r[4..] + U32(Checksum(r)) + more;
    assert r == U32(11) + r[4..];
  }

  /** The bytes of a cut log: the whole records, and what is left of the next one. */
  lemma CutBytes(ps: seq<Bytes>, cut: nat)
    requires cut <= |LogBytes(ps)|
    ensures var n := WholeFrames(ps, cut);
            var rem := cut - |LogBytes(ps[..n])|;
            && rem >= 0 && LogBytes(ps)[..|LogBytes(ps[..n])|] == LogBytes(ps[..n])
            && (rem == 0 ==> LogBytes(ps)[..cut] == LogBytes(ps[..n]))
            && (rem > 0 ==> n < |ps| && rem < |Frame(ps[n])| && LogBytes(ps)[..cut] == LogBytes(ps[..n]) + Frame(ps[n])[..rem])
  {
    hide LogBytes, Frame, WholeFrames;
    WholeFramesAre(ps, cut);
    var n := WholeFrames(ps, cut);
    LogSplit(ps[..n], ps[n..]);
    assert ps[..n] + ps[n..] == ps && ps[..|ps|] == ps;
    var at := |LogBytes(ps[..n])|;
    if cut > at {
      FrameInLog(ps, n);
      assert LogBytes(ps)[..cut] == LogBytes(ps)[..at] + LogBytes(ps)[at..cut];
      assert LogBytes(ps)[at..at + |Frame(ps[n])|][..cut - at] == LogBytes(ps)[at..cut];
    }
  }

  /** What the opening after the next one recovers, for every cut that opens and all records written
      since: everything, behind a border; otherwise an error, or once in a while the old records alone. */
  lemma LaterCommitsExactly(records: seq<Record>, cut: nat, more: seq<Record>)
    requires AllEncodable(records) && AllEncodable(more) && more != []
    requires cut <= |LogBytes(Payloads(records))| && OpensAt(Payloads(records), cut)
    ensures var ps := Payloads(records);
            var n := WholeFrames(ps, cut);
            var rem, tail, all := cut - |LogBytes(ps[..n])|, LogBytes(Payloads(more)), records[..n] + more;
            Recover(LogBytes(ps)[..cut] + tail) ==
            if rem == 0 then (if Readable(Payloads(all)) then Some(Recovered(Replay(all), MaxId(all))) else None)
            else if rem == 4 && n < |ps| && |tail| == |ps[n]| then Some(Recovered(Replay(records[..n]), MaxId(records[..n])))
            else None
  {
    hide LogBytes, EncodePayload, Checksum, Recover, Frame, U32, WholeFrames;
    var ps := Payloads(records);
    var n := WholeFrames(ps, cut);
    var whole, tail := records[..n], LogBytes(Payloads(more));
    assert Payloads(whole) == ps[..n];
    CutBytes(ps, cut);
    var rem := cut - |LogBytes(ps[..n])|;
    CommitsAfterBorder(records, n, more);
    if rem > 0 {
      var p := ps[n];
      TouchedIsReadable(ps, cut);
      FrameSize(p);
      FrameHead(p);
      LogStarts(Payloads(more));
      if rem == 4 {
        CommitsAfterLengthAreLost(whole, records[n], more);
        assert LogBytes(ps[..n]) + U32(|p|) + tail == LogBytes(ps[..n]) + (U32(|p|) + tail);
      } else {
        var r := EncodePayload(more[0]);
        assert Frame(p)[..rem] == U32(|p|) + Frame(p)[4..rem] && Frame(p)[4..rem] == Frame(p)[4..][..|p|] == p;
        var rest := tail[|Frame(r)|..];
        assert tail == Frame(r) + rest;
        assert LogBytes(ps[..n]) + (U32(|p|) + p) + tail == LogBytes(ps[..n]) + (U32(|p|) + p + (Frame(r) + rest));
        CommitsAfterPayloadAreLost(whole, records[n], more[0], rest);
      }
    }
  }

  lemma TouchedIsReadable(ps: seq<Bytes>, cut: nat)
    requires cut <= |LogBytes(ps)| && OpensAt(ps, cut)
    ensures var n := WholeFrames(ps, cut);
            && Readable(ps[..n])
            && (n < |ps| && |LogBytes(ps[..n])| < cut ==>
                  |ps[n]| <= MAX_PAYLOAD && (cut - |LogBytes(ps[..n])| == 4 || cut - |LogBytes(ps[..n])| == 4 + |ps[n]|))
  {
    hide LogBytes, WholeFrames;
    var n, q := WholeFrames(ps, cut), TouchedFrames(ps, cut);
    WholeFramesAre(ps, cut);
    forall i | 0 <= i < n ensures |ps[..n][i]| <= MAX_PAYLOAD { assert ps[..q][i] == ps[i]; }
    if n < q { assert ps[..q][n] == ps[n]; }
  }

  /** The largest id of a log is at least each of its ids. */
  lemma {:induction false} MaxIdReaches(wal: seq<Record>, i: nat)
    requires i < |wal|
    ensures wal[i].txn <= MaxId(wal)
  {
    if i == |wal| - 1 {
    } else {
      MaxIdReaches(wal[..|wal| - 1], i);
    }
  }

  /** Records written after opening a cut log, under an id above those it has, as a reopened database
      writes them, are recovered exactly if the cut fell on a record border (and every record is one
      the reader accepts). */
  lemma RecoveredOnlyBehindBorder(records: seq<Record>, cut: nat, more: seq<Record>)
    requires AllEncodable(records) && AllEncodable(more) && more != []
    requires cut <= |LogBytes(Payloads(records))| && OpensAt(Payloads(records), cut)
    requires more[0].txn > MaxId(records[..WholeFrames(Payloads(records), cut)])
    ensures var ps := Payloads(records);
            var n := WholeFrames(ps, cut);
            var all := records[..n] + more;
            Recover(LogBytes(ps)[..cut] + LogBytes(Payloads(more))) == Some(Recovered(Replay(all), MaxId(all)))
            <==> cut == |LogBytes(ps[..n])| && Readable(Payloads(all))
  {
    hide LogBytes, EncodePayload, Recover, WholeFrames, Replay, MaxId, OpensAt;
    var n := WholeFrames(Payloads(records), cut);
    var all := records[..n] + more;
    LaterCommitsExactly(records, cut, more);
    CutBytes(Payloads(records), cut);
    assert all[n] == more[0];
    MaxIdReaches(all, n);
  }

  /* ---------- The classes ---------- */

  class Wal {
    var contents: Bytes
    var position: nat

    ghost predicate Valid()
      reads this
    {
      position <= |contents|
    }

    constructor (onDisk: Bytes)
      ensures Valid() && contents == onDisk && position == 0
    {
      contents, position := onDisk, 0;
    }

    /** The file is open for appending: the record goes to the end, wherever the cursor is. */
    method WriteEntry(payload: Bytes)
      requires Valid()
      modifies this`contents
      ensures Valid() && contents == old(contents) + Frame(payload)
    {
      var buf := U32(|payload|) + payload + U32(Checksum(payload));
      contents := contents + buf;
    }

    method ReadEntry() returns (o: Outcome)
      requires Valid()
      modifies this`position
      ensures Valid() && o == ReadEntryAt(contents, old(position))
      ensures o.Payload? ==> position == old(position) + |o.payload| + 8
    {
      hide Checksum, FromU32;
      var length := ReadFull(contents, position, 4);
      if !length.Payload? { return length; }
      position := position + 4;
      var n := FromU32(length.payload);
      if n > MAX_PAYLOAD { return Broken; }
      var payload := ReadFull(contents, position, n);
      if !payload.Payload? { return payload; }
      position := position + n;
      var sum := ReadFull(contents, position, 4);
      if !sum.Payload? { return sum; }
      position := position + 4;
      if FromU32(sum.payload) != Checksum(payload.payload) { return Broken; }
      return payload;
    }

    method Clear()
      modifies this
      ensures Valid() && contents == [] && position == 0
    {
      contents, position := [], 0;
    }
  }

  /** The recovery loop, with the memtable it fills. */
  method BuildMemtableFromWal(wal: Wal) returns (ok: bool, mem: Memtable, maxTxnId: TxnId)
    requires wal.Valid() && wal.position == 0
    modifies wal`position
    ensures wal.Valid() && fresh(mem) && mem.Valid()
    ensures ok <==> Recover(wal.contents).Some?
    ensures ok ==> Recover(wal.contents) == Some(Recovered(mem.entries, maxTxnId))
  {
    hide ReadEntryAt, DecodePayload, ReadAll, Rebuild, PutAll, Size, StrictlySorted;
    mem := new Memtable();
    maxTxnId := 0;
    ghost var done: seq<Bytes> := [];
    ghost var whole := ReadAll(wal.contents, 0);
    assert [] + whole.payloads == whole.payloads;
    RebuildNothing();
    while true
      invariant wal.Valid() && mem.Valid() && fresh(mem)
      invariant whole == Scan(done + ReadAll(wal.contents, wal.position).payloads, ReadAll(wal.contents, wal.position).end)
      invariant Rebuild(done) == Some(Recovered(mem.entries, maxTxnId))
      decreases |wal.contents| - wal.position
    {
      ReadAllStep(wal.contents, wal.position);
      ghost var rest := ReadAll(wal.contents, wal.position);
      var o := wal.ReadEntry();
      if o == Eof {
        assert done + [] == done;
        return true, mem, maxTxnId;
      }
      if o == Broken { return false, mem, maxTxnId; }
      RebuildStep(done, o.payload, rest.payloads);
      var rec := ReadRecord(o.payload);
      if rec.None? { return false, mem, maxTxnId; }
      var id := rec.value.txn;
      if id > maxTxnId { maxTxnId := id; }
      PutAllInto(mem, rec.value.writes, id);
      ghost var next := ReadAll(wal.contents, wal.position).payloads;
      assert done + ([o.payload] + next) == (done + [o.payload]) + next;
      done := done + [o.payload];
    }
  }

  lemma ReadAllStep(log: Bytes, pos: nat)
    requires pos <= |log|
    ensures var o := ReadEntryAt(log, pos);
            if o.Payload? then
              && pos + |o.payload| + 8 <= |log|
              && var rest := ReadAll(log, pos + |o.payload| + 8);
                 ReadAll(log, pos) == Scan([o.payload] + rest.payloads, rest.end)
            else ReadAll(log, pos) == Scan([], o)
  {
  }

  lemma RebuildNothing()
    ensures Rebuild([]) == Some(Recovered([], 0))
  {
  }

  lemma RebuildStep(done: seq<Bytes>, p: Bytes, rest: seq<Bytes>)
    requires Rebuild(done).Some? && rest != [] && rest[0] == p
    ensures DecodePayload(p).None? ==> Rebuild(done + rest).None?
    ensures DecodePayload(p).Some? ==>
              var rec, b := DecodePayload(p).value, Rebuild(done).value;
              Rebuild(done + [p]) == Some(Recovered(PutAll(b.mem, rec.writes, rec.txn), if rec.txn > b.maxTxnId then rec.txn else b.maxTxnId))
  {
    hide DecodePayload;
    assert (done + [p])[..|done|] == done;
    if DecodePayload(p).None? {
      RebuildFails(done + [p], rest[1..]);
      assert done + rest == done + [p] + rest[1..];
    }
  }

  lemma {:induction false} RebuildFails(a: seq<Bytes>, b: seq<Bytes>)
    requires Rebuild(a).None?
    ensures Rebuild(a + b).None?
  {
    hide DecodePayload;
    if b == [] {
      assert a + b == a;
    } else {
      RebuildFails(a, b[..|b| - 1]);
      assert (a + b)[..|a + b| - 1] == a + b[..|b| - 1];
    }
  }

  method ReadRecord(payload: Bytes) returns (r: Option<Record>)
    ensures r == DecodePayload(payload)
  {
    hide DecodeBody;
    var cmd := ReadString(payload, 0);
    if cmd.None? || cmd.value != CMD_TRANSACTION { return None; }
    r := DeserialiseTransactionCommand(payload[4 + |cmd.value|..]);
  }

  method PutAllInto(mem: Memtable, writes: seq<(Bytes, Bytes)>, t: TxnId)
    requires mem.Valid()
    modifies mem
    ensures mem.Valid() && mem.entries == PutAll(old(mem.entries), writes, t)
  {
    hide Upsert;
    ghost var whole := PutAll(mem.entries, writes, t);
    assert writes[0..] == writes;
    for i := 0 to |writes|
      invariant mem.Valid() && whole == PutAll(mem.entries, writes[i..], t)
    {
      mem.Put(writes[i].0, writes[i].1, t);
      assert writes[i..][1..] == writes[i + 1..];
    }
  }
}
