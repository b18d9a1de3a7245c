/** Bytes and the big-endian integers of the wire formats. */
module Bytes {
  import opened Prelude

  newtype byte = x: int | 0 <= x < 256

  function U16Bytes(v: u16): (b: seq<byte>)
    ensures |b| == 2
  {
    [(v / 256) as byte, (v % 256) as byte]
  }

  function U24Bytes(v: nat): (b: seq<byte>)
    requires v < 0x100_0000
    ensures |b| == 3
  {
    [(v / 0x1_0000) as byte, (v / 256 % 256) as byte, (v % 256) as byte]
  }

  function U32Bytes(v: u32): (b: seq<byte>)
    ensures |b| == 4
  {
    U16Bytes(v / 0x1_0000) + U16Bytes(v % 0x1_0000)
  }

  function U64Bytes(v: u64): (b: seq<byte>)
    ensures |b| == 8
  {
    U32Bytes(v / 0x1_0000_0000) + U32Bytes(v % 0x1_0000_0000)
  }

  function U16At(b: seq<byte>, i: nat): u16
    requires i + 2 <= |b|
  {
    256 * b[i] as int + b[i + 1] as int
  }

  function U24At(b: seq<byte>, i: nat): (v: nat)
    requires i + 3 <= |b|
    ensures v < 0x100_0000
  {
    0x1_0000 * b[i] as int + 256 * b[i + 1] as int + b[i + 2] as int
  }

  function U32At(b: seq<byte>, i: nat): u32
    requires i + 4 <= |b|
  {
    0x1_0000 * U16At(b, i) as int + U16At(b, i + 2)
  }

  function U64At(b: seq<byte>, i: nat): u64
    requires i + 8 <= |b|
  {
    0x1_0000_0000 * U32At(b, i) as int + U32At(b, i + 4)
  }

  lemma U16RoundTrip(v: u16, rest: seq<byte>)
    ensures U16At(U16Bytes(v) + rest, 0) == v
  {
  }

  lemma U32RoundTrip(v: u32, rest: seq<byte>)
    ensures U32At(U32Bytes(v) + rest, 0) == v
  {
  }

  lemma U64RoundTrip(v: u64, rest: seq<byte>)
    ensures U64At(U64Bytes(v) + rest, 0) == v
  {
    var b := U64Bytes(v) + rest;
    assert b[..4] == U32Bytes(v / 0x1_0000_0000) && b[4..8] == U32Bytes(v % 0x1_0000_0000);
    U32RoundTrip(v / 0x1_0000_0000, []);
    U32RoundTrip(v % 0x1_0000_0000, []);
  }

  lemma U64OfBytes(b: seq<byte>)
    requires |b| == 8
    ensures U64Bytes(U64At(b, 0)) == b
  {
    var v := U64At(b, 0);
    U32OfBytes(b, 0);
    U32OfBytes(b, 4);
    DivModUnique(v, U32At(b, 0), 0x1_0000_0000, U32At(b, 4));
    assert b[0..4] + b[4..8] == b;
  }

  lemma U32OfBytes(b: seq<byte>, i: nat)
    requires i + 4 <= |b|
    ensures U32Bytes(U32At(b, i)) == b[i..i + 4]
  {
    var hi, lo := U16At(b, i), U16At(b, i + 2);
    DivModUnique(U32At(b, i), hi, 0x1_0000, lo);
    assert U16Bytes(hi) == [b[i], b[i + 1]] && U16Bytes(lo) == [b[i + 2], b[i + 3]];
  }

  /** The most significant byte stands first. */
  lemma BigEndian(v: u64)
    ensures var b := U64Bytes(v);
      && b[0] as int == v / 0x100_0000_0000_0000 && b[7] as int == v % 256
      && v == 0x100_0000_0000_0000 * b[0] as int + 0x1_0000_0000_0000 * b[1] as int + 0x100_0000_0000 * b[2] as int
            + 0x1_0000_0000 * b[3] as int + 0x100_0000 * b[4] as int + 0x1_0000 * b[5] as int + 256 * b[6] as int
            + b[7] as int
  {
  }

  function Zeros(n: nat): (z: seq<byte>)
    ensures |z| == n
  {
    seq(n, _ => 0)
  }

  // ---- Bytes at an offset ----------------------------------------------------------------------

  /** The bytes e stand at offset off of b. */
  predicate At(b: seq<byte>, off: nat, e: seq<byte>) {
    off + |e| <= |b| && b[off..off + |e|] == e
  }

  lemma AtSplits(b: seq<byte>, off: nat, x: seq<byte>, y: seq<byte>)
    ensures At(b, off, x + y) <==> At(b, off, x) && At(b, off + |x|, y)
  {
    if At(b, off, x + y) {
      var s := b[off..off + |x + y|];
      assert s[..|x|] == x && s[|x|..] == y;
      assert b[off..off + |x|] == s[..|x|] && b[off + |x|..off + |x| + |y|] == s[|x|..];
    }
  }

  lemma FirstAt(b: seq<byte>, off: nat, e: seq<byte>)
    requires e != [] && At(b, off, e)
    ensures off + |e| <= |b| && b[off] == e[0]
  {
    assert b[off] == b[off..off + |e|][0];
  }

  lemma Middle(a: seq<byte>, e: seq<byte>, rest: seq<byte>)
    ensures At(a + e + rest, |a|, e)
  {
  }

  lemma SubSlice(b: seq<byte>, c: seq<byte>, i: nat, j: nat, x: nat, y: nat)
    requires i <= x <= y <= j <= |b| && j <= |c| && b[i..j] == c[i..j]
    ensures b[x..y] == c[x..y]
  {
    forall k | x <= k < y
      ensures b[k] == c[k]
    {
      assert b[k] == b[i..j][k - i] && c[k] == c[i..j][k - i];
    }
  }

  lemma U16Stands(b: seq<byte>, off: nat, v: u16)
    requires At(b, off, U16Bytes(v))
    ensures off + 2 <= |b| && U16At(b, off) == v
  {
    var f := b[off..off + 2];
    assert f[0] == b[off] && f[1] == b[off + 1];
  }

  lemma U24Stands(b: seq<byte>, off: nat, v: nat)
    requires v < 0x100_0000 && At(b, off, U24Bytes(v))
    ensures off + 3 <= |b| && U24At(b, off) == v
  {
    var f := b[off..off + 3];
    assert f[0] == b[off] && f[1] == b[off + 1] && f[2] == b[off + 2];
    assert v / 0x1_0000 == v / 256 / 256;
  }

  /** b with the bytes at off overwritten by e. */
  function Put(b: seq<byte>, off: nat, e: seq<byte>): (r: seq<byte>)
    requires off + |e| <= |b|
    ensures |r| == |b|
  {
    b[..off] + e + b[off + |e|..]
  }

  lemma PutAt(b: seq<byte>, off: nat, e: seq<byte>, i: nat)
    requires off + |e| <= |b| && i < |b|
    ensures Put(b, off, e)[i] == if off <= i < off + |e| then e[i - off] else b[i]
  {
  }

  lemma PutMiddle(a: seq<byte>, e: seq<byte>, rest: seq<byte>, f: seq<byte>)
    requires |e| == |f|
    ensures Put(a + e + rest, |a|, f) == a + f + rest
  {
    assert (a + e + rest)[..|a|] == a && (a + e + rest)[|a| + |f|..] == rest;
  }

  lemma PutInFront(a: seq<byte>, rest: seq<byte>, off: nat, e: seq<byte>)
    requires off + |e| <= |a|
    ensures Put(a + rest, off, e) == Put(a, off, e) + rest
  {
    assert (a + rest)[..off] == a[..off] && (a + rest)[off + |e|..] == a[off + |e|..] + rest;
  }

  // ---- Names as bytes --------------------------------------------------------------------------

  const DOT: byte := 46

  function TrimDotBytes(s: seq<byte>): seq<byte> {
    if s != [] && s[|s| - 1] == DOT then TrimDotBytes(s[..|s| - 1]) else s
  }

  function LowerByte(b: byte): byte {
    if 65 <= b <= 90 then b + 32 else b
  }

  function LowerBytes(s: seq<byte>): (t: seq<byte>)
    ensures |t| == |s|
  {
    seq(|s|, i requires 0 <= i < |s| => LowerByte(s[i]))
  }

  /** The same byte, or the two cases of one letter of the English alphabet. */
  predicate SameLetterByte(a: byte, b: byte) {
    a == b || (65 <= a <= 90 && b == a + 32) || (65 <= b <= 90 && a == b + 32)
  }

  predicate SameLetterBytes(a: seq<byte>, b: seq<byte>) {
    |a| == |b| && forall i :: 0 <= i < |a| ==> SameLetterByte(a[i], b[i])
  }

  predicate OnlyDotBytes(s: seq<byte>) {
    forall i :: 0 <= i < |s| ==> s[i] == DOT
  }

  lemma LowerBytesAgree(a: seq<byte>, b: seq<byte>)
    ensures LowerBytes(a) == LowerBytes(b) <==> SameLetterBytes(a, b)
  {
    if LowerBytes(a) == LowerBytes(b) {
      forall i | 0 <= i < |a|
        ensures SameLetterByte(a[i], b[i])
      {
        assert LowerBytes(a)[i] == LowerBytes(b)[i];
      }
    }
  }

  /** Lowering changes no letter and leaves no capital. */
  lemma LoweredBytes(a: seq<byte>)
    ensures SameLetterBytes(LowerBytes(a), a)
    ensures forall i :: 0 <= i < |a| ==> !(65 <= LowerBytes(a)[i] <= 90)
  {
  }

  /** Trimming takes dots, and all that are at the end. */
  lemma {:induction false} TrimDotBytesIsRest(s: seq<byte>)
    ensures var t := TrimDotBytes(s);
      t <= s && OnlyDotBytes(s[|t|..]) && (t != [] ==> t[|t| - 1] != 46)
  {
    if s != [] && s[|s| - 1] == DOT {
      var front := s[..|s| - 1];
      TrimDotBytesIsRest(front);
      assert s[|TrimDotBytes(front)|..] == front[|TrimDotBytes(front)|..] + [46];
    }
  }

  /** The compared form of a name: its letters without capitals, and without the dots at its end. */
  lemma CleanedBytes(name: seq<byte>)
    ensures var n := LowerBytes(TrimDotBytes(name));
      && |n| <= |name| && SameLetterBytes(n, name[..|n|]) && OnlyDotBytes(name[|n|..])
      && (forall i :: 0 <= i < |n| ==> !(65 <= n[i] <= 90)) && (n != [] ==> n[|n| - 1] != 46)
  {
    TrimDotBytesIsRest(name);
    var t := TrimDotBytes(name);
    LoweredBytes(t);
    assert name[..|t|] == t;
    if t != [] {
      assert LowerBytes(t)[|t| - 1] == LowerByte(t[|t| - 1]);
    }
  }

  lemma LowerBytesTwice(s: seq<byte>)
    ensures LowerBytes(LowerBytes(s)) == LowerBytes(s)
  {
  }
}
