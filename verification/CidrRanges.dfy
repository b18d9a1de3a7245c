/**
 The built-in CIDR table as a list of disjoint intervals: masked, sorted and merged once, then searched by
 halving. Finding an address there is the same as scanning the table.
 */
module CidrRanges {
  import opened Prelude

  /** A network address as the table has it, not necessarily masked, and a prefix of at most 32 bits. */
  datatype Cidr = Cidr(net: u32, prefix: nat) {
    predicate Valid() {
      prefix <= 32
    }

    function Size(): (n: nat)
      requires Valid()
      ensures n > 0
    {
      Pow2(32 - prefix)
    }

    /** target & mask == net & mask: masking is rounding down to the block size. */
    predicate Matches(target: u32)
      requires Valid()
    {
      FloorTo(target, Size()) == FloorTo(net, Size())
    }
  }

  datatype Interval = Interval(start: u32, end: u32) {
    predicate Contains(target: u32) {
      start <= target <= end
    }
  }

  ghost predicate AnyMatches(table: seq<Cidr>, target: u32)
    requires forall i :: 0 <= i < |table| ==> table[i].Valid()
  {
    exists i :: 0 <= i < |table| && table[i].Matches(target)
  }

  predicate Holds(ranges: seq<Interval>, target: u32) {
    exists i :: 0 <= i < |ranges| && ranges[i].Contains(target)
  }

  lemma BlockEnds(c: Cidr)
    requires c.Valid()
    ensures FloorTo(c.net, c.Size()) + c.Size() - 1 <= U32_MAX
  {
    PrefixBlocks(c.prefix);
    BlockFits(c.net, c.Size(), Pow2(c.prefix));
  }

  /** The block of a CIDR, from its network address to the last one. */
  function Block(c: Cidr): (r: Interval)
    requires c.Valid()
    ensures r.start <= r.end
  {
    BlockEnds(c);
    var start := FloorTo(c.net, c.Size());
    Interval(start, start + (c.Size() - 1))
  }

  /** An address lies in the block exactly if it matches under the mask. */
  lemma BlockIsMatch(c: Cidr, target: u32)
    requires c.Valid()
    ensures Block(c).Contains(target) <==> c.Matches(target)
  {
    var d := c.Size();
    var start := FloorTo(c.net, d);
    FloorIsMultiple(c.net, d);
    FloorIsMultiple(target, d);
    if Block(c).Contains(target) {
      DivModUnique(target, c.net / d, d, target - start);
    }
  }

  predicate ByStart(ranges: seq<Interval>) {
    forall i, j :: 0 <= i < j < |ranges| ==> ranges[i].start <= ranges[j].start
  }

  /** Sorted, disjoint and not even adjacent. */
  predicate Separated(ranges: seq<Interval>) {
    && (forall i :: 0 <= i < |ranges| ==> ranges[i].start <= ranges[i].end)
    && (forall i, j :: 0 <= i < j < |ranges| ==> ranges[i].end + 1 < ranges[j].start)
  }

  function SaturatingSucc(x: u32): u32 {
    if x == U32_MAX then x else x + 1
  }

  /** Merges overlapping and adjacent intervals; whatever the order of equal starts, nothing is lost or added. */
  method Merge(ranges: seq<Interval>) returns (merged: seq<Interval>)
    requires ByStart(ranges) && forall i :: 0 <= i < |ranges| ==> ranges[i].start <= ranges[i].end
    ensures Separated(merged)
    ensures forall t: u32 :: Holds(merged, t) <==> Holds(ranges, t)
  {
    merged := [];
    for k := 0 to |ranges|
      invariant Separated(merged)
      invariant k > 0 ==> merged != [] && merged[|merged| - 1].start <= ranges[k - 1].start
      invariant k == 0 ==> merged == []
      invariant forall t: u32 :: Holds(merged, t) <==> Holds(ranges[..k], t)
    {
      var r := ranges[k];
      ghost var before := merged;
      if merged != [] && r.start <= SaturatingSucc(merged[|merged| - 1].end) {
        var last := merged[|merged| - 1];
        if r.end > last.end {
          merged := merged[|merged| - 1 := Interval(last.start, r.end)];
        }
        Absorbs(before, r, merged);
      } else {
        merged := merged + [r];
        HoldsSnoc(before, r);
      }
      HoldsSnoc(ranges[..k], r);
      assert ranges[..k + 1] == ranges[..k] + [r];
    }
    assert ranges[..|ranges|] == ranges;
  }

  lemma HoldsSnoc(ranges: seq<Interval>, r: Interval)
    ensures forall t: u32 :: Holds(ranges + [r], t) <==> Holds(ranges, t) || r.Contains(t)
  {
    forall t: u32
      ensures Holds(ranges + [r], t) <==> Holds(ranges, t) || r.Contains(t)
    {
      var all := ranges + [r];
      assert all[|ranges|] == r;
      if i :| 0 <= i < |ranges| && ranges[i].Contains(t) {
        assert all[i].Contains(t);
      }
    }
  }

  /** The last interval grown by one that starts inside it or right behind it. */
  lemma Absorbs(before: seq<Interval>, r: Interval, after: seq<Interval>)
    requires Separated(before) && before != [] && r.start <= r.end
    requires var last := before[|before| - 1];
      && last.start <= r.start <= SaturatingSucc(last.end)
      && after == if r.end > last.end then before[|before| - 1 := Interval(last.start, r.end)] else before
    ensures Separated(after) && forall t: u32 :: Holds(after, t) <==> Holds(before, t) || r.Contains(t)
  {
    var front, last := before[..|before| - 1], before[|before| - 1];
    var grown := after[|before| - 1];
    assert before == front + [last] && after == front + [grown];
    HoldsSnoc(front, last);
    HoldsSnoc(front, grown);
    assert forall t: u32 :: grown.Contains(t) <==> last.Contains(t) || r.Contains(t);
  }

  /** The standard library's search by halving. */
  method Search(ranges: seq<Interval>, target: u32) returns (found: bool)
    requires Separated(ranges)
    ensures found <==> Holds(ranges, target)
  {
    var size := |ranges|;
    if size == 0 {
      return false;
    }
    var base := 0;
    while size > 1
      invariant size >= 1 && 0 <= base && base + size <= |ranges|
      invariant forall i :: 0 <= i < |ranges| && ranges[i].Contains(target) ==> base <= i < base + size
    {
      var half := size / 2;
      var mid := base + half;
      if target >= ranges[mid].start {
        base := mid;
      }
      size := size - half;
    }
    found := ranges[base].start <= target <= ranges[base].end;
  }

  /** A list of the table's blocks in any order. */
  ghost predicate BlocksOf(table: seq<Cidr>, ranges: seq<Interval>)
    requires forall i :: 0 <= i < |table| ==> table[i].Valid()
  {
    multiset(ranges) == multiset(seq(|table|, i requires 0 <= i < |table| => Block(table[i])))
  }

  lemma BlocksHold(table: seq<Cidr>, ranges: seq<Interval>, target: u32)
    requires forall i :: 0 <= i < |table| ==> table[i].Valid()
    requires BlocksOf(table, ranges)
    ensures Holds(ranges, target) <==> AnyMatches(table, target)
  {
    var blocks := seq(|table|, i requires 0 <= i < |table| => Block(table[i]));
    if i :| 0 <= i < |ranges| && ranges[i].Contains(target) {
      assert ranges[i] in multiset(ranges) && ranges[i] in multiset(blocks);
      var j :| 0 <= j < |blocks| && blocks[j] == ranges[i];
      BlockIsMatch(table[j], target);
    }
    if j :| 0 <= j < |table| && table[j].Matches(target) {
      BlockIsMatch(table[j], target);
      assert blocks[j] in multiset(blocks) && blocks[j] in multiset(ranges);
      var i :| 0 <= i < |ranges| && ranges[i] == blocks[j];
    }
  }

  /** Looking an address up in the merged list says whether any CIDR of the table matches it, to the last address. */
  method Lookup(table: seq<Cidr>, sorted: seq<Interval>, target: u32) returns (found: bool)
    requires forall i :: 0 <= i < |table| ==> table[i].Valid()
    requires BlocksOf(table, sorted) && ByStart(sorted)
    ensures found <==> AnyMatches(table, target)
  {
    BlocksHold(table, sorted, target);
    BlocksAreOrdered(table, sorted);
    var merged := Merge(sorted);
    found := Search(merged, target);
  }

  lemma BlocksAreOrdered(table: seq<Cidr>, ranges: seq<Interval>)
    requires forall i :: 0 <= i < |table| ==> table[i].Valid()
    requires BlocksOf(table, ranges)
    ensures forall i :: 0 <= i < |ranges| ==> ranges[i].start <= ranges[i].end
  {
    var blocks := seq(|table|, i requires 0 <= i < |table| => Block(table[i]));
    forall i | 0 <= i < |ranges|
      ensures ranges[i].start <= ranges[i].end
    {
      assert ranges[i] in multiset(ranges) && ranges[i] in multiset(blocks);
      var j :| 0 <= j < |blocks| && blocks[j] == ranges[i];
    }
  }

  lemma FirstsAgree(a: seq<Interval>, b: seq<Interval>)
    requires Separated(a) && Separated(b) && a != [] && forall t: u32 :: Holds(a, t) <==> Holds(b, t)
    ensures b != [] && a[0].start >= b[0].start && (a[0].start == b[0].start ==> b[0].end <= a[0].end)
  {
    assert a[0].Contains(a[0].start);
    assert Holds(b, a[0].start);
    if a[0].end < U32_MAX {
      var t: u32 := a[0].end + 1;
      assert !Holds(a, t);
      assert b[0].Contains(t) ==> Holds(b, t);
    }
  }

  /** The merged list is determined by the addresses it holds, so the order of equal starts cannot show. */
  lemma {:induction false} SeparatedIsCanonical(a: seq<Interval>, b: seq<Interval>)
    requires Separated(a) && Separated(b) && forall t: u32 :: Holds(a, t) <==> Holds(b, t)
    ensures a == b
    decreases |a|
  {
    if a == [] {
      if b != [] {
        FirstsAgree(b, a);
      }
    } else {
      FirstsAgree(a, b);
      FirstsAgree(b, a);
      assert a[0] == b[0];
      forall t: u32
        ensures Holds(a[1..], t) <==> Holds(b[1..], t)
      {
        TailHolds(a, t);
        TailHolds(b, t);
      }
      SeparatedIsCanonical(a[1..], b[1..]);
    }
  }

  lemma TailHolds(a: seq<Interval>, t: u32)
    requires Separated(a) && a != []
    ensures Holds(a[1..], t) <==> Holds(a, t) && !a[0].Contains(t)
  {
    if i :| 0 <= i < |a| && a[i].Contains(t) {
      if i > 0 {
        assert a[1..][i - 1].Contains(t);
      }
    }
    if i :| 0 <= i < |a[1..]| && a[1..][i].Contains(t) {
      assert a[i + 1].Contains(t);
    }
  }
}
