/** Byte strings as the storage engine sees them: Go strings compared byte by byte,
    big-endian integers, and prefixes. */
module Bytes {

  datatype Option<+T> = None | Some(value: T)

  datatype Result<+T> = Ok(value: T) | Err

  type Byte = x: int | 0 <= x < 256

  type Bytes = seq<Byte>

  type Store = map<Bytes, Bytes>

  const TWO_32: nat := 0x1_0000_0000
  const TWO_64: nat := 0x1_0000_0000_0000_0000

  /* ---------- Go's string order ---------- */

  predicate Less(a: Bytes, b: Bytes) {
    if |b| == 0 then false
    else if |a| == 0 then true
    else a[0] < b[0] || (a[0] == b[0] && Less(a[1..], b[1..]))
  }

  predicate AtMost(a: Bytes, b: Bytes) {
    a == b || Less(a, b)
  }

  lemma {:induction false} LessIrreflexive(a: Bytes)
    ensures !Less(a, a)
  {
    if a == [] {
    } else {
      LessIrreflexive(a[1..]);
    }
  }

  lemma {:induction false} LessTransitive(a: Bytes, b: Bytes, c: Bytes)
    requires Less(a, b) && Less(b, c)
    ensures Less(a, c)
  {
    if a == [] {
    } else if a[0] == b[0] && b[0] == c[0] {
      LessTransitive(a[1..], b[1..], c[1..]);
    }
  }

  lemma {:induction false} LessTotal(a: Bytes, b: Bytes)
    ensures a == b || Less(a, b) || Less(b, a)
  {
    if a == [] || b == [] {
    } else if a[0] == b[0] {
      LessTotal(a[1..], b[1..]);
      if a[1..] == b[1..] {
        assert a == [a[0]] + a[1..] && b == [b[0]] + b[1..];
      }
    }
  }

  lemma LessAsymmetric(a: Bytes, b: Bytes)
    requires Less(a, b)
    ensures !Less(b, a) && a != b
  {
  }

  /** a comes first: at the first byte where they differ a has the smaller one, or a is a proper prefix. */
  ghost predicate Precedes(a: Bytes, b: Bytes) {
    exists n :: DiffersAt(a, b, n)
  }

  ghost predicate DiffersAt(a: Bytes, b: Bytes, n: nat) {
    n <= |a| && n < |b| && a[..n] == b[..n] && (n == |a| || a[n] < b[n])
  }

  lemma {:induction false} LessExactly(a: Bytes, b: Bytes)
    ensures Less(a, b) <==> Precedes(a, b)
  {
    if b == [] {
    } else if a == [] {
      assert DiffersAt(a, b, 0);
    } else {
      LessExactly(a[1..], b[1..]);
      if a[0] < b[0] { assert DiffersAt(a, b, 0); }
      if a[0] == b[0] && Less(a[1..], b[1..]) {
        var n: nat :| DiffersAt(a[1..], b[1..], n);
        assert a[..n + 1] == [a[0]] + a[1..][..n] && b[..n + 1] == [b[0]] + b[1..][..n];
        assert DiffersAt(a, b, n + 1);
      }
      if n: nat :| DiffersAt(a, b, n) {
        if n > 0 {
          assert a[0] == a[..n][0] && b[0] == b[..n][0];
          assert a[1..][..n - 1] == a[..n][1..] && b[1..][..n - 1] == b[..n][1..];
          assert DiffersAt(a[1..], b[1..], n - 1);
        }
      }
    }
  }

  /* ---------- Prefixes ---------- */

  predicate HasPrefix(s: Bytes, p: Bytes) {
    p <= s
  }

  function Clip(s: Bytes, n: nat): (r: Bytes)
    ensures |r| <= n && r <= s
  {
    if |s| <= n then s else s[..n]
  }

  /** A string with prefix p is never below p. */
  lemma {:induction false} PrefixAtMost(p: Bytes, s: Bytes)
    requires HasPrefix(s, p)
    ensures AtMost(p, s)
  {
    if |p| == 0 {
    } else {
      assert s[0] == p[0];
      assert p[1..] <= s[1..] by {
        assert s == p + s[|p|..];
        assert s[1..] == p[1..] + s[|p|..];
      }
      PrefixAtMost(p[1..], s[1..]);
      if p[1..] == s[1..] {
        assert p == [p[0]] + p[1..] && s == [s[0]] + s[1..];
      }
    }
  }

  /** Once a key whose clipped head is above p has been met, no later key has prefix p. */
  lemma {:induction false} PastPrefix(p: Bytes, s: Bytes, later: Bytes)
    requires Less(p, Clip(s, |p|))
    requires AtMost(s, later)
    ensures !HasPrefix(later, p)
  {
    if |p| > 0 && HasPrefix(later, p) {
      var c := Clip(s, |p|);
      assert |s| > 0 && c[0] == s[0] && later[0] == p[0];
      if s != later {
        assert s[0] <= later[0];
      }
      assert s[0] == later[0] == p[0];
      assert c[1..] == Clip(s[1..], |p| - 1);
      assert Less(p[1..], c[1..]);
      assert AtMost(s[1..], later[1..]);
      assert p[1..] <= later[1..] by {
        assert later == p + later[|p|..];
        assert later[1..] == p[1..] + later[|p|..];
      }
      PastPrefix(p[1..], s[1..], later[1..]);
    }
  }

  /** A key without prefix p whose clipped head is not above p lies below every key that has prefix p. */
  lemma {:induction false} BeforePrefix(p: Bytes, s: Bytes, t: Bytes)
    requires !HasPrefix(s, p) && !Less(p, Clip(s, |p|))
    requires HasPrefix(t, p)
    ensures Less(s, t)
  {
    if |s| == 0 {
      assert |p| > 0;
    } else {
      var c := Clip(s, |p|);
      assert c[0] == s[0] && t[0] == p[0];
      if s[0] == p[0] {
        assert c[1..] == Clip(s[1..], |p| - 1);
        assert t[1..] == p[1..] + t[|p|..] by { assert t == p + t[|p|..]; }
        BeforePrefix(p[1..], s[1..], t[1..]);
      }
    }
  }

  /* ---------- Big-endian integers ---------- */

  /** binary.BigEndian.AppendUint32 of uint32(n): the conversion keeps n modulo 2^32. */
  function U32(n: nat): (r: Bytes)
    ensures |r| == 4
  {
    [n / 256 / 256 / 256 % 256, n / 256 / 256 % 256, n / 256 % 256, n % 256]
  }

  function FromU32(b: Bytes): (n: nat)
    requires |b| == 4
    ensures n < TWO_32
  {
    var b0: int, b1: int, b2: int, b3: int := b[0], b[1], b[2], b[3];
    ((b0 * 256 + b1) * 256 + b2) * 256 + b3
  }

  /** Most significant byte first. */
  lemma BigEndian32(n: nat)
    requires n < TWO_32
    ensures var b := U32(n);
            var b0: int, b1: int, b2: int, b3: int := b[0], b[1], b[2], b[3];
            b0 * 0x100_0000 + b1 * 0x1_0000 + b2 * 0x100 + b3 == n
  {
    U32RoundTrip(n);
  }

  /** uint32(n) of a larger number keeps its low 32 bits. */
  lemma U32Truncates(n: nat)
    ensures U32(n) == U32(n % TWO_32)
  {
    var q, m := n / TWO_32, n % TWO_32;
    assert n == q * TWO_32 + m;
    assert n / 256 == (q * 0x100_0000) + m / 256;
    assert n / 256 / 256 == (q * 0x1_0000) + m / 256 / 256;
    assert n / 256 / 256 / 256 == (q * 0x100) + m / 256 / 256 / 256;
  }

  lemma DivideStep(q: nat, d: nat)
    requires d < 256
    ensures (q * 256 + d) / 256 == q && (q * 256 + d) % 256 == d
  {
  }

  lemma U32RoundTrip(n: nat)
    requires n < TWO_32
    ensures FromU32(U32(n)) == n
  {
  }

  lemma U32Onto(b: Bytes)
    requires |b| == 4
    ensures U32(FromU32(b)) == b
  {
    var b0: int, b1: int, b2: int, b3: int := b[0], b[1], b[2], b[3];
    DivideStep((b0 * 256 + b1) * 256 + b2, b3);
    DivideStep(b0 * 256 + b1, b2);
    DivideStep(b0, b1);
    assert FromU32(b) / 256 == (b0 * 256 + b1) * 256 + b2;
  }

  function U64(n: nat): (r: Bytes)
    ensures |r| == 8
  {
    U32(n / TWO_32) + U32(n % TWO_32)
  }

  function FromU64(b: Bytes): (n: nat)
    requires |b| == 8
    ensures n < TWO_64
  {
    FromU32(b[..4]) * TWO_32 + FromU32(b[4..])
  }

  lemma BigEndian64(n: nat)
    requires n < TWO_64
    ensures U64(n)[..4] == U32(n / TWO_32) && U64(n)[4..] == U32(n % TWO_32)
  {
  }

  lemma U64RoundTrip(n: nat)
    requires n < TWO_64
    ensures FromU64(U64(n)) == n
  {
    hide U32, FromU32;
    U32RoundTrip(n / TWO_32);
    U32RoundTrip(n % TWO_32);
    assert U64(n)[..4] == U32(n / TWO_32) && U64(n)[4..] == U32(n % TWO_32);
  }

  lemma U64Onto(b: Bytes)
    requires |b| == 8
    ensures U64(FromU64(b)) == b
  {
    var hi, lo := FromU32(b[..4]), FromU32(b[4..]);
    assert (hi * TWO_32 + lo) / TWO_32 == hi && (hi * TWO_32 + lo) % TWO_32 == lo;
    U32Onto(b[..4]);
    U32Onto(b[4..]);
    assert b == b[..4] + b[4..];
  }

  /** A string behind its length in four bytes, as every codec of the engine writes it. */
  function Str(s: Bytes): (r: Bytes)
    ensures |r| == 4 + |s|
  {
    U32(|s|) + s
  }

  /** A stretch that is three strings in a row contains each of them at its place. */
  lemma ThreeParts(buf: Bytes, i: nat, a: Bytes, b: Bytes, c: Bytes)
    requires i + |a| + |b| + |c| <= |buf| && buf[i..i + |a| + |b| + |c|] == a + b + c
    ensures buf[i..i + |a|] == a
    ensures buf[i + |a|..i + |a| + |b|] == b
    ensures buf[i + |a| + |b|..i + |a| + |b| + |c|] == c
  {
    var piece := buf[i..i + |a| + |b| + |c|];
    forall j | 0 <= j < |a| ensures buf[i + j] == a[j] { assert piece[j] == buf[i + j]; }
    forall j | 0 <= j < |b| ensures buf[i + |a| + j] == b[j] { assert piece[|a| + j] == buf[i + |a| + j]; }
    forall j | 0 <= j < |c| ensures buf[i + |a| + |b| + j] == c[j] { assert piece[|a| + |b| + j] == buf[i + |a| + |b| + j]; }
  }

  lemma CutSlice(all: Bytes, pos: nat, n: nat, cut: nat)
    requires pos <= cut <= pos + n <= |all|
    ensures all[..cut][pos..] == all[pos..pos + n][..cut - pos]
  {
  }

  lemma ThreePieces(buf: Bytes, a: nat, b: nat, c: nat, d: nat)
    requires a <= b <= c <= d <= |buf|
    ensures buf[a..d] == buf[a..b] + buf[b..c] + buf[c..d]
  {
  }

  /** The string that stands behind its length at position i; None if the bytes do not hold it. */
  function ExtractString(buf: Bytes, i: nat): (r: Option<Bytes>)
    ensures r.Some? ==> i + 4 + |r.value| <= |buf|
  {
    if i + 4 > |buf| then None
    else
      var n := FromU32(buf[i..i + 4]);
      if i + 4 + n > |buf| then None else Some(buf[i + 4..i + 4 + n])
  }

  /* ---------- The last of a list ---------- */

  /** The last position whose element has the property: what a loop keeps that never stops early. */
  function LastWhere<T>(s: seq<T>, has: T -> bool): (p: Option<nat>)
    ensures p.None? <==> forall i :: 0 <= i < |s| ==> !has(s[i])
    ensures p.Some? ==> p.value < |s| && has(s[p.value]) && forall i :: p.value < i < |s| ==> !has(s[i])
  {
    if s == [] then None
    else if has(s[|s| - 1]) then Some(|s| - 1)
    else LastWhere(s[..|s| - 1], has)
  }

  /** The loop that finds it, or -1. */
  method FindLast<T>(s: seq<T>, has: T -> bool) returns (p: int)
    ensures -1 <= p < |s|
    ensures LastWhere(s, has) == if p == -1 then None else Some(p)
  {
    p := -1;
    for i := 0 to |s|
      invariant -1 <= p < i
      invariant p == -1 ==> forall j :: 0 <= j < i ==> !has(s[j])
      invariant p != -1 ==> has(s[p]) && forall j :: p < j < i ==> !has(s[j])
    {
      if has(s[i]) { p := i; }
    }
  }
}
