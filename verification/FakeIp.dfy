/**
 The fake-IP mapper: domains get addresses round-robin from a range, and a reused address evicts the
 domain that held it. Its two maps are always inverse, and together they are a first-in first-out window.
 */
module FakeIp {
  import opened Prelude

  /** A network of 2^(32 - prefix) addresses; masks become division by the size. */
  datatype Range = Range(network: nat, size: nat) {
    predicate Valid() {
      && 8 <= size <= 0x1_0000_0000
      && network % size == 0
      && network + size <= 0x1_0000_0000
    }

    predicate Contains(ip: u32)
      requires size > 0
    {
      ip - ip % size == network
    }

    /** The addresses handed out: network + 2 up to broadcast - 1. */
    function Capacity(): nat
      requires Valid()
    {
      size - 3
    }

    /** The address of the i-th assignment, counting from zero. */
    function Slot(i: nat): u32
      requires Valid()
    {
      network + 2 + i % Capacity()
    }
  }

  /** The range of a CIDR, refused above /29. */
  function RangeOf(ip: u32, prefix: u32): Option<Range> {
    if prefix > 29 then None else
      var size := Pow2(32 - prefix);
      Some(Range(FloorTo(ip, size), size))
  }

  lemma SizesOfPrefixes(prefix: nat)
    requires prefix <= 29
    ensures 8 <= Pow2(32 - prefix) <= 0x1_0000_0000
  {
    PrefixBlocks(prefix);
    Pow2Grows(3, 32 - prefix);
  }

  /** Every accepted CIDR gives a well-formed range around its address. */
  lemma RangeOfIsValid(ip: u32, prefix: u32)
    ensures RangeOf(ip, prefix).Some? <==> prefix <= 29
    ensures prefix <= 29 ==> RangeOf(ip, prefix).value.Valid() && RangeOf(ip, prefix).value.Contains(ip)
  {
    if prefix <= 29 {
      SizesOfPrefixes(prefix);
      PrefixBlocks(prefix);
      FloorIsMultiple(ip, Pow2(32 - prefix));
      BlockFits(ip, Pow2(32 - prefix), Pow2(prefix));
    }
  }

  /** The mapper's tables and allocation cursor. */
  datatype Tables = Tables(next: u32, d2i: map<string, u32>, i2d: map<u32, string>)

  function Empty(r: Range): Tables
    requires r.Valid()
  {
    Tables(r.network + 2, map[], map[])
  }

  function Advance(r: Range, cur: u32): nat
    requires r.Valid()
  {
    if (cur + 1) % r.size == r.size - 1 then r.network + 2 else cur + 1
  }

  /** The slow path: take the cursor's address, evicting the domain that holds it. */
  function Assign(r: Range, t: Tables, domain: string): (Tables, u32)
    requires r.Valid() && t.next < U32_MAX
  {
    var ip := t.next;
    var d2i := if ip in t.i2d && t.i2d[ip] != domain then t.d2i - {t.i2d[ip]} else t.d2i;
    (Tables(Advance(r, ip), d2i[domain := ip], t.i2d[ip := domain]), ip)
  }

  function Looked(r: Range, t: Tables, name: string): (Tables, u32)
    requires r.Valid() && t.next < U32_MAX
  {
    var domain := Lower(name);
    if domain in t.d2i then (t, t.d2i[domain]) else Assign(r, t, domain)
  }

  function NameOf(t: Tables, ip: u32): Option<string> {
    if ip in t.i2d then Some(t.i2d[ip]) else None
  }

  class FakeIpMapper {
    const range: Range
    var nextIp: u32
    var domainToIp: map<string, u32>
    var ipToDomain: map<u32, string>
    var dirty: bool

    ghost function State(): Tables
      reads this
    {
      Tables(nextIp, domainToIp, ipToDomain)
    }

    /** The cursor is an address of the range and never the broadcast. */
    ghost predicate Valid()
      reads this
    {
      range.Valid() && range.network <= nextIp < range.network + range.size - 1
    }

    constructor (range: Range)
      requires range.Valid()
      ensures this.range == range && Valid() && State() == Empty(range) && !dirty
    {
      this.range := range;
      nextIp, domainToIp, ipToDomain, dirty := range.network + 2, map[], map[], false;
    }

    method LookupOrAssign(name: string) returns (ip: u32)
      requires Valid()
      modifies this
      ensures Valid() && (State(), ip) == Looked(range, old(State()), name)
      ensures dirty == (old(dirty) || Lower(name) !in old(domainToIp))
    {
      var domain := Lower(name);
      if domain in domainToIp {
        return domainToIp[domain];
      }
      ip := nextIp;
      var n: nat := ip + 1;
      CursorStep(range, ip);
      if n % range.size == range.size - 1 {
        n := range.network + 2;
      }
      nextIp := n;
      if ip in ipToDomain {
        var oldDomain := ipToDomain[ip];
        if oldDomain != domain {
          domainToIp := domainToIp - {oldDomain};
        }
      }
      ipToDomain := ipToDomain[ip := domain];
      domainToIp := domainToIp[domain := ip];
      dirty := true;
    }

    method LookupDomain(ip: u32) returns (d: Option<string>)
      ensures d == NameOf(State(), ip)
    {
      d := if ip in ipToDomain then Some(ipToDomain[ip]) else None;
    }

    method Clear()
      requires Valid()
      modifies this
      ensures Valid() && State() == Empty(range) && !dirty
    {
      domainToIp, ipToDomain, nextIp, dirty := map[], map[], range.network + 2, false;
    }
  }

  lemma CursorStep(r: Range, cur: u32)
    requires r.Valid() && r.network <= cur < r.network + r.size - 1
    ensures (cur + 1) % r.size == cur + 1 - r.network
    ensures r.network <= Advance(r, cur) < r.network + r.size - 1
  {
    var q := r.network / r.size;
    assert r.network == q * r.size;
    DivModUnique(cur + 1, q, r.size, cur + 1 - r.network);
  }

  // ---- The window ------------------------------------------------------------------------------

  lemma SlotStep(r: Range, n: nat)
    requires r.Valid()
    ensures r.network + 2 <= r.Slot(n) <= r.network + r.size - 2
    ensures r.Slot(n) < U32_MAX && Advance(r, r.Slot(n)) == r.Slot(n + 1)
  {
    var c := r.Capacity();
    CursorStep(r, r.Slot(n));
    assert n == n / c * c + n % c;
    if n % c == c - 1 {
      assert (n / c + 1) * c == n / c * c + c;
      DivModUnique(n + 1, n / c + 1, c, 0);
    } else {
      DivModUnique(n + 1, n / c, c, n % c + 1);
    }
  }

  lemma SlotsRepeat(r: Range, i: nat)
    requires r.Valid()
    ensures r.Slot(i + r.Capacity()) == r.Slot(i)
  {
    var c := r.Capacity();
    assert (i / c + 1) * c == i / c * c + c;
    DivModUnique(i + c, i / c + 1, c, i % c);
  }

  lemma SlotsDiffer(r: Range, i: nat, j: nat)
    requires r.Valid() && i < j < i + r.Capacity()
    ensures r.Slot(i) != r.Slot(j)
  {
    ModsDiffer(i, j, r.Capacity());
  }

  predicate Live(r: Range, history: seq<string>, i: int)
    requires r.Valid()
  {
    0 <= i < |history| && i >= |history| - r.Capacity()
  }

  /** The tables hold exactly the last Capacity() of the assignments `history`, each at its slot. */
  ghost predicate IsWindow(r: Range, t: Tables, history: seq<string>)
    requires r.Valid()
  {
    && t.next == r.Slot(|history|)
    && (forall i: nat :: Live(r, history, i) ==>
          && history[i] in t.d2i && t.d2i[history[i]] == r.Slot(i)
          && r.Slot(i) in t.i2d && t.i2d[r.Slot(i)] == history[i])
    && (forall d :: d in t.d2i ==> exists i: nat :: Live(r, history, i) && history[i] == d)
    && (forall ip :: ip in t.i2d ==> exists i: nat :: Live(r, history, i) && r.Slot(i) == ip)
  }

  ghost predicate Inverse(t: Tables) {
    && (forall d :: d in t.d2i ==> t.d2i[d] in t.i2d && t.i2d[t.d2i[d]] == d)
    && (forall ip :: ip in t.i2d ==> t.i2d[ip] in t.d2i && t.d2i[t.i2d[ip]] == ip)
  }

  lemma WindowsAreInverse(r: Range, t: Tables, history: seq<string>)
    requires r.Valid() && IsWindow(r, t, history)
    ensures Inverse(t)
    ensures forall ip :: ip in t.i2d ==> r.network + 2 <= ip <= r.network + r.size - 2
  {
    forall ip | ip in t.i2d
      ensures t.i2d[ip] in t.d2i && t.d2i[t.i2d[ip]] == ip && r.network + 2 <= ip <= r.network + r.size - 2
    {
      var i: nat :| Live(r, history, i) && r.Slot(i) == ip;
      SlotStep(r, i);
    }
  }

  /** The i-th assignment survives the next one: it is live now and its slot is not the one reused. */
  predicate Survives(r: Range, history: seq<string>, i: int)
    requires r.Valid()
  {
    0 <= i < |history| && i > |history| - r.Capacity()
  }

  lemma SurvivorsDiffer(r: Range, history: seq<string>, i: nat)
    requires r.Valid() && Live(r, history, i)
    ensures Survives(r, history, i) <==> r.Slot(i) != r.Slot(|history|)
  {
    if Survives(r, history, i) {
      SlotsDiffer(r, i, |history|);
    } else {
      SlotsRepeat(r, i);
    }
  }

  lemma SurvivorsStay(r: Range, t: Tables, history: seq<string>, domain: string, i: nat)
    requires r.Valid() && IsWindow(r, t, history) && domain !in t.d2i && t.next < U32_MAX
    requires Survives(r, history, i)
    ensures var t' := Assign(r, t, domain).0;
      && history[i] in t'.d2i && t'.d2i[history[i]] == r.Slot(i)
      && r.Slot(i) in t'.i2d && t'.i2d[r.Slot(i)] == history[i]
  {
    assert Live(r, history, i);
    SurvivorsDiffer(r, history, i);
    if t.next in t.i2d {
      var k: nat :| Live(r, history, k) && r.Slot(k) == t.next;
    }
  }

  lemma DomainOrigin(r: Range, t: Tables, history: seq<string>, domain: string, d: string) returns (i: nat)
    requires r.Valid() && IsWindow(r, t, history) && domain !in t.d2i && t.next < U32_MAX
    requires d in Assign(r, t, domain).0.d2i && d != domain
    ensures Survives(r, history, i) && history[i] == d
  {
    i :| Live(r, history, i) && history[i] == d;
    SurvivorsDiffer(r, history, i);
  }

  lemma AddressOrigin(r: Range, t: Tables, history: seq<string>, domain: string, ip: u32) returns (i: nat)
    requires r.Valid() && IsWindow(r, t, history) && t.next < U32_MAX
    requires ip in Assign(r, t, domain).0.i2d && ip != t.next
    ensures Survives(r, history, i) && r.Slot(i) == ip
  {
    i :| Live(r, history, i) && r.Slot(i) == ip;
    SurvivorsDiffer(r, history, i);
  }

  lemma LiveAfter(r: Range, history: seq<string>, domain: string, i: int)
    requires r.Valid()
    ensures Live(r, history + [domain], i) <==> Survives(r, history, i) || i == |history|
  {
  }

  lemma AssignedDomains(r: Range, t: Tables, history: seq<string>, domain: string, d: string)
    requires r.Valid() && IsWindow(r, t, history) && domain !in t.d2i && t.next < U32_MAX
    requires d in Assign(r, t, domain).0.d2i
    ensures exists i: nat :: Live(r, history + [domain], i) && (history + [domain])[i] == d
  {
    hide IsWindow, Assign, Live, Survives;
    var i := |history|;
    if d != domain {
      i := DomainOrigin(r, t, history, domain, d);
      assert Survives(r, history, i) ==> i < |history| by { SurvivorsAreOld(r, history, i); }
    }
    LiveAfter(r, history, domain, i);
  }

  lemma AssignedAddresses(r: Range, t: Tables, history: seq<string>, domain: string, ip: u32)
    requires r.Valid() && IsWindow(r, t, history) && t.next < U32_MAX
    requires ip in Assign(r, t, domain).0.i2d
    ensures exists i: nat :: Live(r, history + [domain], i) && r.Slot(i) == ip
  {
    var i := |history|;
    if ip != t.next {
      i := AddressOrigin(r, t, history, domain, ip);
    }
    LiveAfter(r, history, domain, i);
  }

  lemma SurvivorsAreOld(r: Range, history: seq<string>, i: int)
    requires r.Valid()
    ensures Survives(r, history, i) ==> 0 <= i < |history|
  {
  }

  lemma AssignedStand(r: Range, t: Tables, history: seq<string>, domain: string, i: nat)
    requires r.Valid() && IsWindow(r, t, history) && domain !in t.d2i && t.next < U32_MAX
    requires Live(r, history + [domain], i)
    ensures var t', after := Assign(r, t, domain).0, history + [domain];
      && i < |after| && after[i] in t'.d2i && t'.d2i[after[i]] == r.Slot(i)
      && r.Slot(i) in t'.i2d && t'.i2d[r.Slot(i)] == after[i]
  {
    LiveAfter(r, history, domain, i);
    if i < |history| {
      SurvivorsStay(r, t, history, domain, i);
    }
  }

  lemma AssignInWindow(r: Range, t: Tables, history: seq<string>, domain: string)
    requires r.Valid() && IsWindow(r, t, history) && domain !in t.d2i
    ensures t.next < U32_MAX && IsWindow(r, Assign(r, t, domain).0, history + [domain])
  {
    SlotStep(r, |history|);
    var t', after := Assign(r, t, domain).0, history + [domain];
    assert t'.next == r.Slot(|after|);
    hide Assign, Live, Range.Slot;
    forall i: nat | Live(r, after, i)
      ensures i < |after| && after[i] in t'.d2i && t'.d2i[after[i]] == r.Slot(i)
      ensures r.Slot(i) in t'.i2d && t'.i2d[r.Slot(i)] == after[i]
    {
      AssignedStand(r, t, history, domain, i);
    }
    forall d | d in t'.d2i
      ensures exists i: nat :: Live(r, after, i) && after[i] == d
    {
      AssignedDomains(r, t, history, domain, d);
    }
    forall ip | ip in t'.i2d
      ensures exists i: nat :: Live(r, after, i) && r.Slot(i) == ip
    {
      AssignedAddresses(r, t, history, domain, ip);
    }
  }

  // ---- Runs ------------------------------------------------------------------------------------

  datatype Op = Lookup(name: string) | Clear

  /** The tables after a run from new, and the assignments made since the last clear, in order. */
  function Run(r: Range, ops: seq<Op>): (Tables, seq<string>)
    requires r.Valid()
  {
    if ops == [] then (Empty(r), []) else
      var (t, history) := Run(r, ops[..|ops| - 1]);
      match ops[|ops| - 1]
      case Clear => (Empty(r), [])
      case Lookup(name) =>
        var domain := Lower(name);
        if domain in t.d2i || t.next == U32_MAX then (t, history) else (Assign(r, t, domain).0, history + [domain])
  }

  lemma EmptyIsWindow(r: Range)
    requires r.Valid()
    ensures IsWindow(r, Empty(r), [])
  {
    assert r.Slot(0) == r.network + 2 by { DivModUnique(0, 0, r.Capacity(), 0); }
  }

  /** In every reachable state the tables are the window of the assignments made since the last clear. */
  lemma {:induction false} RunIsWindow(r: Range, ops: seq<Op>)
    requires r.Valid()
    ensures IsWindow(r, Run(r, ops).0, Run(r, ops).1)
  {
    hide IsWindow, Assign, Lower;
    EmptyIsWindow(r);
    if ops != [] {
      var (t, history) := Run(r, ops[..|ops| - 1]);
      RunIsWindow(r, ops[..|ops| - 1]);
      if ops[|ops| - 1].Lookup? && Lower(ops[|ops| - 1].name) !in t.d2i {
        AssignInWindow(r, t, history, Lower(ops[|ops| - 1].name));
      }
    }
  }

  /** A run's steps are those of the mapper: the cursor never reaches the last address of all. */
  lemma RunFollowsMapper(r: Range, ops: seq<Op>, name: string)
    requires r.Valid()
    ensures var t := Run(r, ops).0;
      t.next < U32_MAX && Run(r, ops + [Lookup(name)]).0 == Looked(r, t, name).0
  {
    RunIsWindow(r, ops);
    SlotStep(r, |Run(r, ops).1|);
    assert (ops + [Lookup(name)])[..|ops|] == ops;
  }

  /** The two maps are exact inverses, and every address lies in [network + 2, broadcast - 1]. */
  lemma MapsStayInverse(r: Range, ops: seq<Op>)
    requires r.Valid()
    ensures var t := Run(r, ops).0;
      && Inverse(t)
      && (forall ip :: ip in t.i2d ==> r.network + 2 <= ip <= r.network + r.size - 2)
      && (forall d :: d in t.d2i ==> r.network + 2 <= t.d2i[d] <= r.network + r.size - 2)
  {
    RunIsWindow(r, ops);
    WindowsAreInverse(r, Run(r, ops).0, Run(r, ops).1);
  }

  /** The reverse lookup undoes an assignment, and asking again changes nothing. */
  lemma LookupsUndoEachOther(r: Range, ops: seq<Op>, name: string)
    requires r.Valid()
    ensures Run(r, ops).0.next < U32_MAX
    ensures var (t, ip) := Looked(r, Run(r, ops).0, name);
      && NameOf(t, ip) == Some(Lower(name))
      && t.next < U32_MAX && Looked(r, t, name) == (t, ip)
  {
    MapsStayInverse(r, ops);
    RunFollowsMapper(r, ops, name);
    RunFollowsMapper(r, ops + [Lookup(name)], name);
    hide Run, Lower;
  }

  /** A second name finds the first one's address, and changes nothing, exactly if it has the same letters. */
  lemma NamesShareExactly(r: Range, ops: seq<Op>, a: string, b: string)
    requires r.Valid()
    ensures Run(r, ops).0.next < U32_MAX
    ensures var (t, ip) := Looked(r, Run(r, ops).0, a);
      t.next < U32_MAX && (Looked(r, t, b) == (t, ip) <==> SameLetters(a, b))
  {
    LookupsUndoEachOther(r, ops, a);
    LowerAgrees(a, b);
    RunFollowsMapper(r, ops, a);
    MapsStayInverse(r, ops + [Lookup(a)]);
    var (t, ip) := Looked(r, Run(r, ops).0, a);
    hide Run, Lower, SameLetters, Advance;
    if Lower(b) !in t.d2i {
      assert Lower(b) in Looked(r, t, b).0.d2i;
    }
  }

  /** Between two assignments of one domain lie at least Capacity() others. */
  lemma {:induction false} ReassignmentGap(r: Range, ops: seq<Op>, i: nat, j: nat)
    requires r.Valid() && i < j < |Run(r, ops).1| && Run(r, ops).1[i] == Run(r, ops).1[j]
    ensures j - i > r.Capacity()
  {
    var before := ops[..|ops| - 1];
    var (t, history) := Run(r, before);
    if j < |history| {
      ReassignmentGap(r, before, i, j);
    } else {
      RunIsWindow(r, before);
      assert !Live(r, history, i);
    }
  }

  /**
   The i-th assignment since the last clear keeps its address through the next Capacity() - 1
   assignments and is evicted by the one after them.
   */
  lemma ResidencyIsExact(r: Range, ops: seq<Op>, i: nat)
    requires r.Valid() && i < |Run(r, ops).1|
    ensures var (t, history) := Run(r, ops);
      && (|history| - 1 - i < r.Capacity() ==> history[i] in t.d2i && t.d2i[history[i]] == r.Slot(i))
      && (|history| - 1 - i == r.Capacity() ==> history[i] !in t.d2i)
  {
    var (t, history) := Run(r, ops);
    RunIsWindow(r, ops);
    assert |history| - 1 - i < r.Capacity() ==> Live(r, history, i);
    if |history| - 1 - i == r.Capacity() && history[i] in t.d2i {
      var j: nat :| Live(r, history, j) && history[j] == history[i];
      ReassignmentGap(r, ops, i, j);
    }
  }
}
