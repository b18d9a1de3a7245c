/** Option and Result, fixed-width integers, flattening, names, and facts about division. */
module Prelude {

  datatype Option<+T> = None | Some(value: T) {
    predicate IsFailure() { None? }

    function PropagateFailure<U>(): Option<U>
      requires None?
    {
      None
    }

    function Extract(): T
      requires Some?
    {
      value
    }
  }

  datatype Result<+T, +E> = Ok(value: T) | Err(error: E)

  const U16_MAX := 0xFFFF
  const U32_MAX := 0xFFFF_FFFF
  const U64_MAX := 0xFFFF_FFFF_FFFF_FFFF

  type u16 = x: int | 0 <= x <= U16_MAX
  type u32 = x: int | 0 <= x <= U32_MAX
  type u64 = x: int | 0 <= x <= U64_MAX

  function Min(a: int, b: int): int {
    if a <= b then a else b
  }

  function Max(a: int, b: int): int {
    if a <= b then b else a
  }

  function Pow2(n: nat): (p: nat)
    ensures p > 0
  {
    if n == 0 then 1 else 2 * Pow2(n - 1)
  }

  lemma {:induction false} Pow2Grows(a: nat, b: nat)
    requires a <= b
    ensures Pow2(a) <= Pow2(b)
  {
    if a < b {
      Pow2Grows(a, b - 1);
    }
  }

  lemma {:induction false} Pow2Adds(a: nat, b: nat)
    ensures Pow2(a + b) == Pow2(b) * Pow2(a)
  {
    if b > 0 {
      Pow2Adds(a, b - 1);
      assert Pow2(a + b) == 2 * Pow2(a + (b - 1));
      assert Pow2(b) == 2 * Pow2(b - 1);
      hide Pow2;
      DoubleProduct(Pow2(b - 1), Pow2(a));
    }
  }

  lemma DoubleProduct(x: int, y: int)
    ensures 2 * (x * y) == (2 * x) * y
  {
  }

  lemma Pow2Of32()
    ensures Pow2(32) == 0x1_0000_0000
  {
    assert Pow2(8) == 256;
    assert Pow2(16) == 256 * 256 by { Pow2Adds(8, 8); }
    assert Pow2(32) == 65536 * 65536 by { Pow2Adds(16, 16); }
  }

  /** The addresses divide into 2^prefix blocks of 2^(32 - prefix). */
  lemma PrefixBlocks(prefix: nat)
    requires prefix <= 32
    ensures Pow2(prefix) * Pow2(32 - prefix) == 0x1_0000_0000
    ensures Pow2(32 - prefix) <= 0x1_0000_0000
  {
    Pow2Of32();
    Pow2Grows(32 - prefix, 32);
    Pow2Adds(32 - prefix, prefix);
  }

  lemma AppendAssociates<T>(a: seq<T>, b: seq<T>, c: seq<T>)
    ensures (a + b) + c == a + (b + c)
  {
  }

  lemma SliceJoin<T>(s: seq<T>, i: nat, j: nat)
    requires i <= j <= |s|
    ensures s[..i] + s[i..j] == s[..j]
  {
  }

  function Flatten<T>(ss: seq<seq<T>>): seq<T> {
    if ss == [] then [] else ss[0] + Flatten(ss[1..])
  }

  lemma {:induction false} FlattenAppend<T>(a: seq<seq<T>>, b: seq<seq<T>>)
    ensures Flatten(a + b) == Flatten(a) + Flatten(b)
  {
    if a == [] {
      assert a + b == b;
    } else {
      FlattenAppend(a[1..], b);
      assert (a + b)[0] == a[0] && (a + b)[1..] == a[1..] + b;
      AppendAssociates(a[0], Flatten(a[1..]), Flatten(b));
    }
  }

  lemma FlattenSnoc<T>(a: seq<seq<T>>, x: seq<T>)
    ensures Flatten(a + [x]) == Flatten(a) + x
  {
    FlattenAppend(a, [x]);
  }

  function Optional<T>(o: Option<T>): seq<T> {
    if o.Some? then [o.value] else []
  }

  /** The values present in a sequence of options, in order. */
  function Somes<T>(os: seq<Option<T>>): seq<T> {
    if os == [] then [] else Somes(os[..|os| - 1]) + Optional(os[|os| - 1])
  }

  lemma {:induction false} SomesPosition<T>(os: seq<Option<T>>, i: nat, m: nat)
    requires i < m <= |os| && os[i].Some?
    ensures var all, at := Somes(os[..m]), Somes(os[..i]);
      |at| < |all| && all[..|at|] == at && all[|at|] == os[i].value
  {
    var below := os[..m];
    assert below[..m - 1] == os[..m - 1];
    if i < m - 1 {
      SomesPosition(os, i, m - 1);
    }
  }

  lemma {:induction false} SomesOrigin<T>(os: seq<Option<T>>, k: nat) returns (i: nat)
    requires k < |Somes(os)|
    ensures i < |os| && os[i] == Some(Somes(os)[k])
  {
    i := |os| - 1;
    if k < |Somes(os[..i])| {
      i := SomesOrigin(os[..i], k);
    }
  }

  function Firsts<A, B>(ps: seq<(A, B)>): (r: seq<A>)
    ensures |r| == |ps|
  {
    seq(|ps|, i requires 0 <= i < |ps| => ps[i].0)
  }

  function Seconds<A, B>(ps: seq<(A, B)>): (r: seq<B>)
    ensures |r| == |ps|
  {
    seq(|ps|, i requires 0 <= i < |ps| => ps[i].1)
  }

  // ---- Names -----------------------------------------------------------------------------------

  function LowerChar(c: char): char {
    if 'A' <= c <= 'Z' then c + 32 as char else c
  }

  function Lower(s: string): (t: string)
    ensures |t| == |s|
  {
    seq(|s|, i requires 0 <= i < |s| => LowerChar(s[i]))
  }

  lemma LowerTwice(name: string)
    ensures Lower(Lower(name)) == Lower(name)
  {
    var l := Lower(name);
    forall i | 0 <= i < |l|
      ensures LowerChar(l[i]) == l[i]
    {
      assert l[i] == LowerChar(name[i]);
    }
    assert Lower(l) == l;
  }

  function TrimDots(s: string): (t: string)
    ensures t <= s && (t != "" ==> t[|t| - 1] != '.')
  {
    if s != "" && s[|s| - 1] == '.' then TrimDots(s[..|s| - 1]) else s
  }

  /** The same character, or the two cases of one letter of the English alphabet. */
  predicate SameLetter(a: char, b: char) {
    || a == b
    || ('A' <= a <= 'Z' && b as int == a as int + 32)
    || ('A' <= b <= 'Z' && a as int == b as int + 32)
  }

  predicate SameLetters(a: string, b: string) {
    |a| == |b| && forall i :: 0 <= i < |a| ==> SameLetter(a[i], b[i])
  }

  /** The same letters, but for dots that one or both have at their end. */
  ghost predicate SameName(a: string, b: string) {
    exists n: nat :: n <= |a| && n <= |b| && SameLetters(a[..n], b[..n]) && OnlyDots(a[n..]) && OnlyDots(b[n..])
  }

  predicate OnlyDots(s: string) {
    forall i :: 0 <= i < |s| ==> s[i] == '.'
  }

  lemma LowerAgrees(a: string, b: string)
    ensures Lower(a) == Lower(b) <==> SameLetters(a, b)
  {
    if Lower(a) == Lower(b) {
      forall i | 0 <= i < |a|
        ensures SameLetter(a[i], b[i])
      {
        assert Lower(a)[i] == Lower(b)[i];
      }
    }
  }

  lemma {:induction false} TrimIsRest(s: string)
    ensures var t := TrimDots(s); s == t + s[|t|..] && OnlyDots(s[|t|..])
  {
    if s != "" && s[|s| - 1] == '.' {
      TrimIsRest(s[..|s| - 1]);
    }
  }

  lemma {:induction false} TrimOfDots(s: string, n: nat)
    requires n <= |s| && OnlyDots(s[n..])
    ensures TrimDots(s) == TrimDots(s[..n])
  {
    if n < |s| {
      assert s[|s| - 1] == s[n..][|s| - 1 - n];
      var front := s[..|s| - 1];
      forall i | 0 <= i < |front[n..]|
        ensures front[n..][i] == '.'
      {
        assert front[n..][i] == s[n..][i];
      }
      TrimOfDots(front, n);
      assert front[..n] == s[..n];
    } else {
      assert s[..n] == s;
    }
  }

  lemma {:induction false} TrimSame(a: string, b: string)
    requires SameLetters(a, b)
    ensures SameLetters(TrimDots(a), TrimDots(b))
  {
    if a != "" && a[|a| - 1] == '.' {
      TrimSame(a[..|a| - 1], b[..|b| - 1]);
    }
  }

  /** Trimmed and lowered, two names are one exactly if they have the same letters but for dots at the end. */
  lemma CleanedAgree(a: string, b: string)
    ensures Lower(TrimDots(a)) == Lower(TrimDots(b)) <==> SameName(a, b)
  {
    hide Lower, SameLetters, OnlyDots;
    LowerAgrees(TrimDots(a), TrimDots(b));
    if SameLetters(TrimDots(a), TrimDots(b)) {
      TrimIsRest(a);
      TrimIsRest(b);
      SameSize(TrimDots(a), TrimDots(b));
      var n := |TrimDots(a)|;
      assert a[..n] == TrimDots(a) && b[..n] == TrimDots(b);
    }
    if SameName(a, b) {
      var n: nat :| n <= |a| && n <= |b| && SameLetters(a[..n], b[..n]) && OnlyDots(a[n..]) && OnlyDots(b[n..]);
      TrimOfDots(a, n);
      TrimOfDots(b, n);
      TrimSame(a[..n], b[..n]);
    }
  }

  lemma SameSize(a: string, b: string)
    requires SameLetters(a, b)
    ensures |a| == |b|
  {
  }

  // ---- Division by a variable ------------------------------------------------------------------

  lemma MulAtLeast(a: int, d: int)
    requires a >= 1 && d >= 0
    ensures a * d >= d
  {
    assert (a - 1) * d >= 0;
  }

  lemma MulMonotone(a: int, b: int, d: int)
    requires a <= b && d >= 0
    ensures a * d <= b * d
  {
    assert (b - a) * d >= 0;
  }

  lemma DivModUnique(x: int, q: int, d: int, r: int)
    requires 0 <= r < d && x == q * d + r
    ensures x / d == q && x % d == r
  {
    var q', r' := x / d, x % d;
    assert x == q' * d + r' && 0 <= r' < d;
    assert (q' - q) * d == r - r' && (q - q') * d == r' - r;
    if q' > q {
      MulAtLeast(q' - q, d);
    } else if q' < q {
      MulAtLeast(q - q', d);
    }
  }

  /** Less than d apart, two numbers have different remainders. */
  lemma ModsDiffer(i: int, j: int, d: int)
    requires d > 0 && i < j < i + d
    ensures i % d != j % d
  {
    var rest := i % d + (j - i);
    assert i == i / d * d + i % d;
    if rest < d {
      DivModUnique(j, i / d, d, rest);
    } else {
      assert (i / d + 1) * d == i / d * d + d;
      DivModUnique(j, i / d + 1, d, rest - d);
    }
  }

  /** The largest multiple of size that is at most x. */
  function FloorTo(x: nat, size: nat): (f: nat)
    requires size > 0
    ensures f <= x && f == x - x % size
  {
    FloorIsMultiple(x, size);
    x / size * size
  }

  lemma FloorIsMultiple(x: nat, size: nat)
    requires size > 0
    ensures 0 <= x / size * size <= x && x / size * size == x - x % size
    ensures x / size * size % size == 0
  {
    DivModUnique(x / size * size, x / size, size, 0);
  }

  /** A block of size below a multiple of size ends at or below that multiple. */
  lemma BlockFits(x: nat, size: nat, count: nat)
    requires size > 0 && x < count * size
    ensures FloorTo(x, size) + size <= count * size
  {
    FloorIsMultiple(x, size);
    if x / size >= count {
      MulMonotone(count, x / size, size);
    } else {
      MulMonotone(x / size + 1, count, size);
    }
  }
}
