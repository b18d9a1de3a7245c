/**
 The protobuf reader of geosite files. Three nested loops read the fields of a file, an entry and a rule; each
 is shown to see exactly the fields an encoder wrote, with unknown ones skipped at every level.
 */
module Protobuf {
  import opened Prelude
  import opened Bytes

  // ---- Varints ---------------------------------------------------------------------------------

  const TWO64 := 0x1_0000_0000_0000_0000

  lemma Pow2Of64()
    ensures Pow2(64) == TWO64
  {
    Pow2Of32();
    Pow2Adds(32, 32);
  }

  lemma Pow2Step7(shift: nat)
    ensures Pow2(shift + 7) == 128 * Pow2(shift)
  {
    Pow2Adds(shift, 7);
    assert Pow2(7) == 128;
  }

  /** What a byte adds: seven bits, shifted, less what is shifted out of 64. */
  function SevenBits(x: byte, shift: nat): nat {
    x as nat % 128 * Pow2(shift) % TWO64
  }

  /**
   The varint whose next byte is at pos, with acc read so far: seven bits a byte, or-ed in above the bits of acc,
   so added. Ten bytes at most.
   */
  function VarintFrom(b: seq<byte>, pos: nat, shift: nat, acc: nat): (r: Option<(nat, nat)>)
    ensures r.Some? ==> pos < r.value.1 <= |b|
    decreases |b| - pos
  {
    if pos >= |b| then None else
      var sum := acc + SevenBits(b[pos], shift);
      if b[pos] < 128 then Some((sum, pos + 1))
      else if shift + 7 >= 64 then None
      else VarintFrom(b, pos + 1, shift + 7, sum)
  }

  function Varint(b: seq<byte>, pos: nat): (r: Option<(nat, nat)>)
    ensures r.Some? ==> pos < r.value.1 <= |b|
  {
    VarintFrom(b, pos, 0, 0)
  }

  method ReadVarint(b: seq<byte>, start: nat) returns (r: Option<(nat, nat)>)
    ensures r == Varint(b, start)
  {
    var pos, result: nat, shift: nat := start, 0, 0;
    while pos < |b|
      invariant Varint(b, start) == VarintFrom(b, pos, shift, result)
      decreases |b| - pos
    {
      var x := b[pos];
      pos := pos + 1;
      result := result + SevenBits(x, shift);
      if x < 128 {
        return Some((result, pos));
      }
      shift := shift + 7;
      if shift >= 64 {
        return None;
      }
    }
    return None;
  }

  function VarintBytes(v: nat): (b: seq<byte>)
    ensures b != []
  {
    if v < 128 then [v as byte] else [(v % 128 + 128) as byte] + VarintBytes(v / 128)
  }

  lemma LowBitsFit(x: byte, shift: nat)
    requires shift + 7 < 64
    ensures SevenBits(x, shift) == x as nat % 128 * Pow2(shift)
    ensures SevenBits(x, shift) + Pow2(shift) <= Pow2(shift + 7)
  {
    hide Pow2;
    var d, low := Pow2(shift), x as nat % 128;
    Pow2Of64();
    Pow2Step7(shift);
    Pow2Grows(shift + 7, 64);
    MulMonotone(low + 1, 128, d);
    MulMonotone(0, low, d);
    assert (low + 1) * d == low * d + d;
  }

  lemma Decomposes(low: nat, n: nat, d: nat)
    requires n > 0
    ensures low * d == low / n * (n * d) + low % n * d
  {
    var q, m := low / n, low % n;
    calc {
      low * d;
      (q * n + m) * d;
      q * (n * d) + m * d;
    }
  }

  /** The tenth byte: only the bits that fit are kept. */
  lemma TopBitsFit(x: byte, shift: nat)
    requires shift <= 63
    ensures SevenBits(x, shift) + Pow2(shift) <= TWO64
  {
    hide Pow2;
    var d, n, low := Pow2(shift), Pow2(64 - shift), x as nat % 128;
    Pow2Of64();
    Pow2Adds(shift, 64 - shift);
    Decomposes(low, n, d);
    KeptBelow(low % n, n, d);
    DivModUnique(low * d, low / n, TWO64, low % n * d);
  }

  lemma KeptBelow(m: nat, n: nat, d: nat)
    requires m < n && d > 0
    ensures 0 <= m * d && m * d + d <= n * d
  {
    MulMonotone(m + 1, n, d);
    MulMonotone(0, m, d);
    assert (m + 1) * d == m * d + d;
  }

  /** What is read never leaves 64 bits. */
  lemma {:induction false} VarintFits(b: seq<byte>, pos: nat, shift: nat, acc: nat)
    requires shift <= 63 && acc < Pow2(shift)
    ensures var r := VarintFrom(b, pos, shift, acc); r.Some? ==> r.value.0 <= U64_MAX
    decreases |b| - pos
  {
    hide Pow2, SevenBits;
    if pos < |b| {
      TopBitsFit(b[pos], shift);
      if shift + 7 < 64 {
        LowBitsFit(b[pos], shift);
        VarintFits(b, pos + 1, shift + 7, acc + SevenBits(b[pos], shift));
      }
    }
  }

  lemma VarintSplits(v: nat, shift: nat)
    requires v >= 128
    ensures v * Pow2(shift) == v % 128 * Pow2(shift) + v / 128 * Pow2(shift + 7)
    ensures v * Pow2(shift) < TWO64 ==> shift + 7 < 64
    ensures 0 <= v % 128 * Pow2(shift) && 0 <= v / 128 * Pow2(shift + 7)
  {
    hide Pow2;
    var d, low, rest := Pow2(shift), v % 128, v / 128;
    Pow2Of64();
    Pow2Step7(shift);
    MulMonotone(128, v, d);
    if shift + 7 >= 64 {
      Pow2Grows(64, shift + 7);
    }
    calc {
      v * d;
      (low + 128 * rest) * d;
      low * d + rest * (128 * d);
    }
  }

  lemma VarintStep(b: seq<byte>, pos: nat, shift: nat, acc: nat)
    requires pos < |b|
    ensures var sum := acc + SevenBits(b[pos], shift);
      VarintFrom(b, pos, shift, acc)
      == if b[pos] < 128 then Some((sum, pos + 1))
         else if shift + 7 >= 64 then None else VarintFrom(b, pos + 1, shift + 7, sum)
  {
  }

  lemma {:induction false} VarintReads(b: seq<byte>, pos: nat, shift: nat, acc: nat, v: nat)
    requires At(b, pos, VarintBytes(v)) && shift <= 63 && acc + v * Pow2(shift) < TWO64
    ensures VarintFrom(b, pos, shift, acc) == Some((acc + v * Pow2(shift), pos + |VarintBytes(v)|))
    decreases v
  {
    hide Pow2, At, SevenBits, VarintFrom;
    FirstAt(b, pos, VarintBytes(v));
    VarintStep(b, pos, shift, acc);
    if v < 128 {
      LastBits(b[pos], shift);
    } else {
      var rest := v / 128;
      AtSplits(b, pos, [(v % 128 + 128) as byte], VarintBytes(rest));
      MoreBits(b[pos], v, shift, acc);
      VarintReads(b, pos + 1, shift + 7, acc + SevenBits(b[pos], shift), rest);
    }
  }

  /** A byte with the low seven bits of v leaves the rest of it to the next. */
  lemma MoreBits(x: byte, v: nat, shift: nat, acc: nat)
    requires v >= 128 && x as nat == v % 128 + 128 && acc + v * Pow2(shift) < TWO64
    ensures shift + 7 < 64
    ensures acc + SevenBits(x, shift) + v / 128 * Pow2(shift + 7) == acc + v * Pow2(shift)
  {
    hide Pow2, SevenBits;
    VarintSplits(v, shift);
    LowBitsFit(x, shift);
    assert x as nat % 128 == v % 128;
  }

  lemma LastBits(x: byte, shift: nat)
    requires x < 128 && x as nat * Pow2(shift) < TWO64
    ensures SevenBits(x, shift) == x as nat * Pow2(shift)
  {
    hide Pow2;
    MulMonotone(0, x as nat, Pow2(shift));
  }

  /** Every 64-bit value is read back from its encoding, wherever it stands. */
  lemma VarintRoundTrip(b: seq<byte>, pos: nat, v: u64)
    requires At(b, pos, VarintBytes(v))
    ensures Varint(b, pos) == Some((v as nat, pos + |VarintBytes(v)|))
  {
    VarintReads(b, pos, 0, 0, v);
  }

  // ---- Fields ----------------------------------------------------------------------------------

  datatype Field =
    | VarintField(num: nat, value: nat)
    | Fixed64(num: nat, bits: seq<byte>)
    | Delimited(num: nat, data: seq<byte>)
    | Fixed32(num: nat, bits: seq<byte>)
  {
    predicate Valid() {
      && num < 0x2000_0000_0000_0000
      && (VarintField? ==> value <= U64_MAX)
      && (Fixed64? ==> |bits| == 8)
      && (Delimited? ==> |data| <= U64_MAX)
      && (Fixed32? ==> |bits| == 4)
    }

    function WireType(): nat {
      match this
      case VarintField(_, _) => 0
      case Fixed64(_, _) => 1
      case Delimited(_, _) => 2
      case Fixed32(_, _) => 5
    }

    function Payload(): seq<byte> {
      match this
      case VarintField(_, v) => VarintBytes(v)
      case Fixed64(_, bits) => bits
      case Delimited(_, data) => VarintBytes(|data|) + data
      case Fixed32(_, bits) => bits
    }

    function Bytes(): (b: seq<byte>)
      ensures b != []
    {
      VarintBytes(8 * num + WireType()) + Payload()
    }
  }

  function Wire(fields: seq<Field>): seq<byte> {
    if fields == [] then [] else fields[0].Bytes() + Wire(fields[1..])
  }

  function LenDelim(b: seq<byte>, pos: nat): (r: Option<(seq<byte>, nat)>)
    ensures r.Some? ==> pos < r.value.1 <= |b|
  {
    var (len, start) :- Varint(b, pos);
    if start + len > |b| then None else Some((b[start..start + len], start + len))
  }

  method ReadLenDelim(b: seq<byte>, pos: nat) returns (r: Option<(seq<byte>, nat)>)
    ensures r == LenDelim(b, pos)
  {
    var len := ReadVarint(b, pos);
    if len.None? {
      return None;
    }
    var start := len.value.1;
    if start + len.value.0 > |b| {
      return None;
    }
    r := Some((b[start..start + len.value.0], start + len.value.0));
  }

  // ---- Lengths that wrap -----------------------------------------------------------------------

  /** What the 64-bit code does with a length and the bytes it announces. */
  datatype Slicing = Refused | Sliced(data: seq<byte>, next: nat) | OutOfRange

  /** The end of the slice is a sum of 64 bits that wraps; a slice that ends before it begins stops the program. */
  function Slice64(b: seq<byte>, pos: nat): Slicing {
    match Varint(b, pos)
    case None => Refused
    case Some((len, start)) =>
      var end := (start + len) % TWO64;
      if end > |b| then Refused else if start > end then OutOfRange else Sliced(b[start..end], end)
  }

  /** On any buffer that fits in memory the sum wraps, and the slice is out of range, exactly if it reaches 2^64. */
  lemma LengthsWrapExactly(b: seq<byte>, pos: nat)
    requires |b| < TWO64
    ensures var len := Varint(b, pos);
      Slice64(b, pos).OutOfRange? <==> len.Some? && len.value.0 + len.value.1 >= TWO64
    ensures var s := Slice64(b, pos);
      !s.OutOfRange? ==> LenDelim(b, pos) == if s.Refused? then None else Some((s.data, s.next))
  {
    hide VarintFrom;
    if Varint(b, pos).Some? {
      var (len, start) := Varint(b, pos).value;
      VarintFits(b, pos, 0, 0);
      if start + len >= TWO64 {
        DivModUnique(start + len, 1, TWO64, start + len - TWO64);
      } else {
        DivModUnique(start + len, 0, TWO64, start + len);
      }
    }
  }

  lemma {:induction false} VarintIsShort(v: nat)
    ensures |VarintBytes(v)| <= 1 + v / 128
    decreases v
  {
    if v >= 128 {
      VarintIsShort(v / 128);
    }
  }

  /** The largest length, alone in a buffer, is one such. */
  lemma LargestLengthWraps()
    ensures Slice64(VarintBytes(U64_MAX), 0) == OutOfRange
  {
    var b := VarintBytes(U64_MAX);
    VarintRoundTrip(b, 0, U64_MAX);
    VarintIsShort(U64_MAX);
    LengthsWrapExactly(b, 0);
  }

  /** A field, or why there is none: a bad varint or length, or a fixed field cut short or of unknown type. */
  datatype Read = Got(field: Field, next: nat) | Malformed | Cut

  function ReadField(b: seq<byte>, pos: nat): (r: Read)
    ensures r.Got? ==> pos < r.next <= |b|
  {
    match Varint(b, pos)
    case None => Malformed
    case Some((tag, p)) =>
      var num, wire := tag / 8, tag % 8;
      if wire == 0 then
        match Varint(b, p)
        case None => Malformed
        case Some((v, q)) => Got(VarintField(num, v), q)
      else if wire == 2 then
        match LenDelim(b, p)
        case None => Malformed
        case Some((data, q)) => Got(Delimited(num, data), q)
      else if wire == 1 then if p + 8 > |b| then Cut else Got(Fixed64(num, b[p..p + 8]), p + 8)
      else if wire == 5 then if p + 4 > |b| then Cut else Got(Fixed32(num, b[p..p + 4]), p + 4)
      else Cut
  }

  /**
   A loop over the fields of a message from pos. A cut field ends it with what it has; a malformed one makes a
   strict loop fail.
   */
  function Scan<S>(b: seq<byte>, pos: nat, s: S, step: (S, Field) -> S, strict: bool): Option<S>
    decreases |b| - pos
  {
    if pos >= |b| then Some(s) else
      match ReadField(b, pos)
      case Got(field, next) => Scan(b, next, step(s, field), step, strict)
      case Malformed => if strict then None else Some(s)
      case Cut => Some(s)
  }

  function Fold<S>(s: S, fields: seq<Field>, step: (S, Field) -> S): S {
    if fields == [] then s else step(Fold(s, fields[..|fields| - 1], step), fields[|fields| - 1])
  }

  lemma TagReads(b: seq<byte>, pos: nat, f: Field)
    requires f.Valid() && At(b, pos, f.Bytes())
    ensures var p := pos + |VarintBytes(8 * f.num + f.WireType())|;
      && Varint(b, pos) == Some((8 * f.num + f.WireType(), p)) && At(b, p, f.Payload())
  {
    hide At, Varint, VarintBytes;
    AtSplits(b, pos, VarintBytes(8 * f.num + f.WireType()), f.Payload());
    VarintRoundTrip(b, pos, 8 * f.num + f.WireType());
  }

  lemma DelimReads(b: seq<byte>, pos: nat, data: seq<byte>)
    requires |data| <= U64_MAX && At(b, pos, VarintBytes(|data|) + data)
    ensures LenDelim(b, pos) == Some((data, pos + |VarintBytes(|data|) + data|))
  {
    hide Varint, VarintBytes;
    AtSplits(b, pos, VarintBytes(|data|), data);
    VarintRoundTrip(b, pos, |data|);
  }

  /** A field is read back wherever it stands. */
  lemma FieldReads(b: seq<byte>, pos: nat, f: Field)
    requires f.Valid() && At(b, pos, f.Bytes())
    ensures ReadField(b, pos) == Got(f, pos + |f.Bytes()|)
  {
    hide Varint, VarintBytes, LenDelim;
    TagReads(b, pos, f);
    var tag := 8 * f.num + f.WireType();
    var p := pos + |VarintBytes(tag)|;
    assert tag / 8 == f.num && tag % 8 == f.WireType();
    match f {
      case VarintField(_, v) => VarintRoundTrip(b, p, v);
      case Delimited(_, data) => DelimReads(b, p, data);
      case _ =>
    }
  }

  predicate AllValid(fields: seq<Field>) {
    forall i :: 0 <= i < |fields| ==> fields[i].Valid()
  }

  lemma {:induction false} FoldCons<S>(s: S, f: Field, fields: seq<Field>, step: (S, Field) -> S)
    ensures Fold(s, [f] + fields, step) == Fold(step(s, f), fields, step)
    decreases |fields|
  {
    var all := [f] + fields;
    if fields == [] {
      assert all[..0] == [];
    } else {
      FoldCons(s, f, fields[..|fields| - 1], step);
      assert all[..|all| - 1] == [f] + fields[..|fields| - 1];
    }
  }

  /** Scanning goes through the fields of a message to whatever stands behind them. */
  lemma {:induction false} ScanReads<S>(b: seq<byte>, pos: nat, fields: seq<Field>, s: S,
                                        step: (S, Field) -> S, strict: bool)
    requires AllValid(fields) && At(b, pos, Wire(fields))
    ensures Scan(b, pos, s, step, strict) == Scan(b, pos + |Wire(fields)|, Fold(s, fields, step), step, strict)
    decreases |fields|
  {
    hide At, ReadField, Fold;
    if fields == [] {
      assert Fold(s, [], step) == s by { FoldNone(s, step); }
    } else {
      AtSplits(b, pos, fields[0].Bytes(), Wire(fields[1..]));
      FieldReads(b, pos, fields[0]);
      ScanReads(b, pos + |fields[0].Bytes()|, fields[1..], step(s, fields[0]), step, strict);
      FoldCons(s, fields[0], fields[1..], step);
      assert [fields[0]] + fields[1..] == fields;
    }
  }

  lemma FoldNone<S>(s: S, step: (S, Field) -> S)
    ensures Fold(s, [], step) == s
  {
  }

  /** A message of any fields, scanned from its start, is what its fields fold to. */
  lemma MessageReads<S>(fields: seq<Field>, s: S, step: (S, Field) -> S, strict: bool)
    requires AllValid(fields)
    ensures Scan(Wire(fields), 0, s, step, strict) == Some(Fold(s, fields, step))
  {
    ScanReads(Wire(fields), 0, fields, s, step, strict);
  }

  // ---- Messages that break off -----------------------------------------------------------------

  lemma {:induction false} NoVarint(b: seq<byte>, pos: nat, shift: nat, acc: nat)
    requires forall i :: pos <= i < |b| ==> b[i] >= 128
    ensures VarintFrom(b, pos, shift, acc).None?
    decreases |b| - pos
  {
    if pos < |b| {
      NoVarint(b, pos + 1, shift + 7, acc + SevenBits(b[pos], shift));
    }
  }

  lemma OneByteVarint(b: seq<byte>, pos: nat)
    requires pos < |b| && b[pos] < 128
    ensures Varint(b, pos) == Some((b[pos] as nat, pos + 1))
  {
    LastBits(b[pos], 0);
  }

  /**
   What ends a message too early: a number that never ends, or a value or bytes that are not there. A strict
   loop then fails and another keeps what it has.
   */
  predicate Broken(tail: seq<byte>) {
    tail != [] &&
    (|| (forall i :: 0 <= i < |tail| ==> tail[i] >= 128)
     || (tail[0] < 128 && tail[0] % 8 == 0 && forall i :: 1 <= i < |tail| ==> tail[i] >= 128)
     || (tail[0] < 128 && tail[0] % 8 == 2 && |tail| >= 2 && tail[1] < 128 && |tail| - 2 < tail[1] as nat))
  }

  /** What ends every loop with what it has: a fixed field cut short, or a wire type that is none. */
  predicate Ending(tail: seq<byte>) {
    tail != [] && tail[0] < 128 &&
    (|| (tail[0] % 8 == 1 && |tail| < 9)
     || (tail[0] % 8 == 5 && |tail| < 5)
     || tail[0] % 8 == 3 || tail[0] % 8 == 4 || tail[0] % 8 >= 6)
  }

  lemma BrokenIsMalformed(b: seq<byte>, pos: nat)
    requires pos < |b| && Broken(b[pos..])
    ensures ReadField(b, pos) == Malformed
  {
    var tail := b[pos..];
    assert forall i :: 0 <= i < |tail| ==> tail[i] == b[pos + i];
    if tail[0] >= 128 {
      forall i | pos <= i < |b|
        ensures b[i] >= 128
      {
        assert b[i] == tail[i - pos];
      }
      NoVarint(b, pos, 0, 0);
    } else {
      OneByteVarint(b, pos);
      if tail[0] % 8 == 0 {
        forall i | pos + 1 <= i < |b|
          ensures b[i] >= 128
        {
          assert b[i] == tail[i - pos];
        }
        NoVarint(b, pos + 1, 0, 0);
      } else {
        OneByteVarint(b, pos + 1);
      }
    }
  }

  lemma EndingIsCut(b: seq<byte>, pos: nat)
    requires pos < |b| && Ending(b[pos..])
    ensures ReadField(b, pos) == Cut
  {
    assert b[pos..][0] == b[pos];
    OneByteVarint(b, pos);
  }

  /** A message that breaks off behind some fields fails a strict loop, and leaves another with those fields. */
  lemma BrokenMessage<S>(fields: seq<Field>, tail: seq<byte>, s: S, step: (S, Field) -> S, strict: bool)
    requires AllValid(fields)
    ensures var r := Scan(Wire(fields) + tail, 0, s, step, strict);
      && (Broken(tail) ==> r == if strict then None else Some(Fold(s, fields, step)))
      && (Ending(tail) ==> r == Some(Fold(s, fields, step)))
  {
    hide Fold, ReadField, Broken, Ending, Wire;
    var w := Wire(fields);
    var b := w + tail;
    assert b[0..|w|] == w && b[|w|..] == tail;
    ScanReads(b, 0, fields, s, step, strict);
    if Broken(tail) {
      NotEmpty(tail);
      BrokenIsMalformed(b, |w|);
    } else if Ending(tail) {
      NotEmpty(tail);
      EndingIsCut(b, |w|);
    }
    BrokenIsNoEnding(tail);
  }

  lemma NotEmpty(tail: seq<byte>)
    requires Broken(tail) || Ending(tail)
    ensures tail != []
  {
  }

  lemma BrokenIsNoEnding(tail: seq<byte>)
    ensures !(Broken(tail) && Ending(tail))
  {
  }
}
