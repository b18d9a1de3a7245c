/**
 Building the outbounds of a configuration: leaves first, then groups and chained tunnels, round after round,
 as what they refer to becomes available. It succeeds exactly on closed, acyclic references.
 */
module Outbound {
  import opened Prelude

  datatype LeafKind = Mirage | Direct | Block

  datatype GroupKind = Selector | Urltest(tolerance: nat, testType: string) | Fallback | LoadBalance

  /** A tunnel over another outbound is a leaf that refers to it; it is built when that one is. */
  datatype Config =
    | Leaf(tag: string, kind: LeafKind)
    | Chained(tag: string, underlying: string)
    | Group(tag: string, group: GroupKind, children: seq<string>)
  {
    function Deps(): seq<string> {
      match this
      case Leaf(_, _) => []
      case Chained(_, u) => [u]
      case Group(_, _, children) => children
    }
  }

  datatype Node =
    | LeafNode(tag: string, kind: LeafKind)
    | ChainedNode(tag: string, underlying: Node)
    | GroupNode(tag: string, group: GroupKind, children: seq<Node>)

  type Outbounds = map<string, Node>

  // ---- The construction ------------------------------------------------------------------------

  function Leaves(cs: seq<Config>): Outbounds {
    if cs == [] then map[] else
      var last, m := cs[|cs| - 1], Leaves(cs[..|cs| - 1]);
      if last.Leaf? then m[last.tag := LeafNode(last.tag, last.kind)] else m
  }

  function Deferred(cs: seq<Config>): (d: seq<Config>)
    ensures forall c :: c in d ==> !c.Leaf?
  {
    if cs == [] then [] else
      var last, d := cs[|cs| - 1], Deferred(cs[..|cs| - 1]);
      if last.Leaf? then d else d + [last]
  }

  function Implicit(m: Outbounds): Outbounds {
    var m1 := if "direct" in m then m else m["direct" := LeafNode("direct", Direct)];
    if "block" in m1 then m1 else m1["block" := LeafNode("block", Block)]
  }

  predicate Resolvable(m: Outbounds, c: Config) {
    forall i :: 0 <= i < |c.Deps()| ==> c.Deps()[i] in m
  }

  function NodeOf(m: Outbounds, c: Config): (n: Node)
    requires Resolvable(m, c)
    ensures n.tag == c.tag
  {
    match c
    case Leaf(tag, kind) => LeafNode(tag, kind)
    case Chained(tag, u) =>
      assert c.Deps()[0] == u;
      ChainedNode(tag, m[u])
    case Group(tag, group, children) =>
      assert c.Deps() == children;
      GroupNode(tag, group, seq(|children|, i requires 0 <= i < |children| => m[children[i]]))
  }

  /** One round: what can be built is, and at once serves those behind it; the others are left. */
  function Round(m: Outbounds, pending: seq<Config>): (Outbounds, seq<Config>)
    decreases |pending|
  {
    if pending == [] then (m, []) else
      var (m1, left) := Round(m, pending[..|pending| - 1]);
      var last := pending[|pending| - 1];
      if Resolvable(m1, last) then (m1[last.tag := NodeOf(m1, last)], left) else (m1, left + [last])
  }

  lemma {:induction false} RoundShrinks(m: Outbounds, pending: seq<Config>)
    ensures |Round(m, pending).1| <= |pending|
    ensures forall c :: c in Round(m, pending).1 ==> c in pending
    decreases |pending|
  {
    if pending != [] {
      RoundShrinks(m, pending[..|pending| - 1]);
    }
  }

  /** Rounds until nothing is left, or one builds nothing: then those left are the error. */
  function Solve(m: Outbounds, pending: seq<Config>): Result<Outbounds, seq<Config>>
    decreases |pending|
  {
    if pending == [] then Ok(m) else
      var (m1, left) := Round(m, pending);
      RoundShrinks(m, pending);
      if |left| == |pending| then Err(left) else Solve(m1, left)
  }

  function Built(cs: seq<Config>): Result<Outbounds, seq<Config>> {
    Solve(Implicit(Leaves(cs)), Deferred(cs))
  }

  method New(cs: seq<Config>) returns (r: Result<Outbounds, seq<Config>>)
    ensures r == Built(cs)
  {
    var outbounds: Outbounds := map[];
    var deferred: seq<Config> := [];
    for i := 0 to |cs|
      invariant outbounds == Leaves(cs[..i]) && deferred == Deferred(cs[..i])
    {
      assert cs[..i + 1][..i] == cs[..i];
      if cs[i].Leaf? {
        outbounds := outbounds[cs[i].tag := LeafNode(cs[i].tag, cs[i].kind)];
      } else {
        deferred := deferred + [cs[i]];
      }
    }
    assert cs[..|cs|] == cs;
    if "direct" !in outbounds {
      outbounds := outbounds["direct" := LeafNode("direct", Direct)];
    }
    if "block" !in outbounds {
      outbounds := outbounds["block" := LeafNode("block", Block)];
    }
    var pending := deferred;
    while pending != []
      invariant Built(cs) == Solve(outbounds, pending)
      decreases |pending|
    {
      ghost var before := outbounds;
      var progress, nextRound;
      outbounds, nextRound, progress := OneRound(outbounds, pending);
      RoundShrinks(before, pending);
      if !progress {
        return Err(nextRound);
      }
      pending := nextRound;
    }
    r := Ok(outbounds);
  }

  method OneRound(m: Outbounds, pending: seq<Config>)
    returns (outbounds: Outbounds, nextRound: seq<Config>, progress: bool)
    ensures (outbounds, nextRound) == Round(m, pending) && progress == (|nextRound| < |pending|)
  {
    outbounds, nextRound, progress := m, [], false;
    for i := 0 to |pending|
      invariant (outbounds, nextRound) == Round(m, pending[..i])
      invariant |nextRound| <= i && progress == (|nextRound| < i)
    {
      var c := pending[i];
      assert pending[..i + 1][..i] == pending[..i];
      var children: seq<Node> := [];
      var resolved := true;
      var deps := c.Deps();
      for k := 0 to |deps|
        invariant |children| == k
        invariant forall j :: 0 <= j < k ==> deps[j] in outbounds && children[j] == outbounds[deps[j]]
      {
        if deps[k] !in outbounds {
          resolved := false;
          break;
        }
        children := children + [outbounds[deps[k]]];
      }
      if resolved {
        var node := match c
          case Leaf(tag, kind) => LeafNode(tag, kind)
          case Chained(tag, _) => ChainedNode(tag, children[0])
          case Group(tag, group, _) => GroupNode(tag, group, children);
        assert node == NodeOf(outbounds, c);
        outbounds := outbounds[c.tag := node];
        progress := true;
      } else {
        nextRound := nextRound + [c];
      }
    }
    assert pending[..|pending|] == pending;
  }

  // ---- What blocks a configuration -------------------------------------------------------------

  predicate Mentions(c: Config, u: string) {
    exists k :: 0 <= k < |c.Deps()| && c.Deps()[k] == u
  }

  predicate MentionsAny(c: Config, tags: set<string>) {
    exists u :: u in tags && Mentions(c, u)
  }

  /** Tags that can never appear: none is there, and whatever would provide one refers to another. */
  ghost predicate Blocked(m: Outbounds, pending: seq<Config>, tags: set<string>) {
    && (forall t :: t in tags ==> t !in m)
    && (forall i :: 0 <= i < |pending| && pending[i].tag in tags ==> MentionsAny(pending[i], tags))
  }

  lemma BlocksReferrer(m: Outbounds, c: Config, tags: set<string>)
    requires MentionsAny(c, tags) && forall t :: t in tags ==> t !in m
    ensures !Resolvable(m, c)
  {
  }

  lemma {:induction false} RoundKeepsBlocked(m: Outbounds, pending: seq<Config>, tags: set<string>)
    requires Blocked(m, pending, tags)
    ensures var (m1, left) := Round(m, pending);
      Blocked(m1, left, tags) && forall i :: 0 <= i < |pending| && MentionsAny(pending[i], tags) ==> pending[i] in left
    decreases |pending|
  {
    hide MentionsAny, Resolvable, NodeOf;
    if pending != [] {
      var front, last := pending[..|pending| - 1], pending[|pending| - 1];
      assert forall i :: 0 <= i < |front| ==> front[i] == pending[i];
      RoundKeepsBlocked(m, front, tags);
      if MentionsAny(last, tags) {
        BlocksReferrer(Round(m, front).0, last, tags);
      }
    }
  }

  lemma {:induction false} BlockedFails(m: Outbounds, pending: seq<Config>, tags: set<string>, i: nat)
    requires Blocked(m, pending, tags) && i < |pending| && MentionsAny(pending[i], tags)
    ensures Solve(m, pending).Err?
    decreases |pending|
  {
    hide MentionsAny;
    var (m1, left) := Round(m, pending);
    RoundShrinks(m, pending);
    RoundKeepsBlocked(m, pending, tags);
    if |left| < |pending| {
      assert pending[i] in left;
      var j :| 0 <= j < |left| && left[j] == pending[i];
      BlockedFails(m1, left, tags, j);
    }
  }

  // ---- What an error leaves --------------------------------------------------------------------

  /** Every tag of m or of pending is in m' or belongs to one of those left. */
  ghost predicate Accounted(m: Outbounds, pending: seq<Config>, m': Outbounds, left: seq<Config>) {
    && (forall t :: t in m ==> t in m')
    && (forall i :: 0 <= i < |pending| ==> pending[i].tag in m' || pending[i] in left)
  }

  lemma {:induction false} RoundAccounts(m: Outbounds, pending: seq<Config>)
    ensures Accounted(m, pending, Round(m, pending).0, Round(m, pending).1)
    decreases |pending|
  {
    if pending != [] {
      var front := pending[..|pending| - 1];
      RoundAccounts(m, front);
      forall i | 0 <= i < |front|
        ensures pending[i].tag in Round(m, pending).0 || pending[i] in Round(m, pending).1
      {
        assert front[i] == pending[i];
      }
    }
  }

  /** A round that builds nothing finds nothing to build. */
  lemma {:induction false} NoProgress(m: Outbounds, pending: seq<Config>)
    requires |Round(m, pending).1| == |pending|
    ensures Round(m, pending) == (m, pending) && forall i :: 0 <= i < |pending| ==> !Resolvable(m, pending[i])
    decreases |pending|
  {
    if pending != [] {
      var front := pending[..|pending| - 1];
      RoundShrinks(m, front);
      NoProgress(m, front);
      assert front + [pending[|pending| - 1]] == pending;
      assert forall i :: 0 <= i < |front| ==> front[i] == pending[i];
    }
  }

  lemma {:induction false} ErrorState(m: Outbounds, pending: seq<Config>) returns (m': Outbounds)
    requires Solve(m, pending).Err?
    ensures var left := Solve(m, pending).error;
      && left != [] && Accounted(m, pending, m', left)
      && (forall c :: c in left ==> c in pending && !Resolvable(m', c))
    decreases |pending|
  {
    var (m1, left) := Round(m, pending);
    RoundShrinks(m, pending);
    RoundAccounts(m, pending);
    if |left| == |pending| {
      NoProgress(m, pending);
      m' := m;
    } else {
      m' := ErrorState(m1, left);
      forall i | 0 <= i < |pending|
        ensures pending[i].tag in m' || pending[i] in Solve(m, pending).error
      {
        if pending[i] in left {
          var j :| 0 <= j < |left| && left[j] == pending[i];
        }
      }
    }
  }

  // ---- Closed and acyclic ----------------------------------------------------------------------

  predicate DistinctTags(cs: seq<Config>) {
    forall i, j :: 0 <= i < j < |cs| ==> cs[i].tag != cs[j].tag
  }

  predicate BuiltIn(t: string) {
    t == "direct" || t == "block"
  }

  /** No group or chained tunnel takes the name of an implicit outbound. */
  predicate ImplicitNamesKept(cs: seq<Config>) {
    forall i :: 0 <= i < |cs| && !cs[i].Leaf? ==> !BuiltIn(cs[i].tag)
  }

  predicate Defined(cs: seq<Config>, t: string) {
    BuiltIn(t) || exists i :: 0 <= i < |cs| && cs[i].tag == t
  }

  ghost predicate Closed(cs: seq<Config>) {
    forall i, u :: 0 <= i < |cs| && Mentions(cs[i], u) ==> Defined(cs, u)
  }

  predicate Refers(cs: seq<Config>, t: string, u: string) {
    exists i :: 0 <= i < |cs| && cs[i].tag == t && Mentions(cs[i], u)
  }

  /** A closed walk along references. */
  predicate Cycle(cs: seq<Config>, p: seq<string>) {
    |p| >= 2 && p[0] == p[|p| - 1] && forall i :: 0 <= i < |p| - 1 ==> Refers(cs, p[i], p[i + 1])
  }

  ghost predicate RefersInto(cs: seq<Config>, t: string, tags: set<string>) {
    exists u :: u in tags && Refers(cs, t, u)
  }

  lemma {:induction false} DeferredAre(cs: seq<Config>, c: Config)
    ensures c in Deferred(cs) <==> c in cs && !c.Leaf?
  {
    if cs != [] {
      DeferredAre(cs[..|cs| - 1], c);
      assert cs == cs[..|cs| - 1] + [cs[|cs| - 1]];
    }
  }

  lemma {:induction false} LeavesAre(cs: seq<Config>, t: string)
    ensures t in Leaves(cs) <==> exists i :: 0 <= i < |cs| && cs[i].Leaf? && cs[i].tag == t
  {
    if cs != [] {
      var front := cs[..|cs| - 1];
      LeavesAre(front, t);
      assert forall i :: 0 <= i < |front| ==> front[i] == cs[i];
    }
  }

  /** The outbounds before the rounds: leaves and implicit ones. */
  lemma StartAre(cs: seq<Config>, t: string)
    ensures t in Implicit(Leaves(cs)) <==> BuiltIn(t) || exists i :: 0 <= i < |cs| && cs[i].Leaf? && cs[i].tag == t
  {
    LeavesAre(cs, t);
  }

  lemma ReferrersWait(cs: seq<Config>, i: nat, u: string)
    requires DistinctTags(cs) && i < |cs| && Mentions(cs[i], u)
    ensures cs[i] in Deferred(cs)
    ensures cs[i].tag in Implicit(Leaves(cs)) <==> BuiltIn(cs[i].tag)
  {
    DeferredAre(cs, cs[i]);
    StartAre(cs, cs[i].tag);
  }

  /** Tags each of which refers to one of them, or is undefined, block whatever refers to one. */
  lemma BlockedTagsFail(cs: seq<Config>, tags: set<string>, i: nat)
    requires DistinctTags(cs) && i < |cs| && MentionsAny(cs[i], tags)
    requires forall t :: t in tags ==> !BuiltIn(t) && (Defined(cs, t) ==> RefersInto(cs, t, tags))
    ensures Built(cs).Err?
  {
    var m, pending := Implicit(Leaves(cs)), Deferred(cs);
    forall t | t in tags
      ensures t !in m
    {
      StartAre(cs, t);
      if Defined(cs, t) {
        var u := Next(cs, tags, t);
        var j :| 0 <= j < |cs| && cs[j].tag == t && Mentions(cs[j], u);
        ReferrersWait(cs, j, u);
      }
    }
    forall j | 0 <= j < |pending| && pending[j].tag in tags
      ensures MentionsAny(pending[j], tags)
    {
      var c := pending[j];
      DeferredAre(cs, c);
      var n :| 0 <= n < |cs| && cs[n] == c;
      var u := Next(cs, tags, c.tag);
      var l :| 0 <= l < |cs| && cs[l].tag == c.tag && Mentions(cs[l], u);
      assert l == n;
    }
    var u :| u in tags && Mentions(cs[i], u);
    ReferrersWait(cs, i, u);
    var j :| 0 <= j < |pending| && pending[j] == cs[i];
    BlockedFails(m, pending, tags, j);
  }

  lemma UndefinedFails(cs: seq<Config>, i: nat, u: string)
    requires DistinctTags(cs) && i < |cs| && Mentions(cs[i], u) && !Defined(cs, u)
    ensures Built(cs).Err?
  {
    assert MentionsAny(cs[i], {u});
    BlockedTagsFail(cs, {u}, i);
  }

  /** No implicit outbound is on the walk. */
  predicate Avoids(p: seq<string>) {
    forall i :: 0 <= i < |p| ==> !BuiltIn(p[i])
  }

  lemma OnCycleRefers(cs: seq<Config>, p: seq<string>, t: string, tags: set<string>)
    requires Cycle(cs, p) && t in p && tags == set t | t in p
    ensures RefersInto(cs, t, tags)
  {
    hide Refers;
    var k :| 0 <= k < |p| && p[k] == t;
    var at := if k == |p| - 1 then 0 else k;
    assert p[at] == t && p[at + 1] in tags && Refers(cs, p[at], p[at + 1]);
  }

  lemma CycleFails(cs: seq<Config>, p: seq<string>)
    requires DistinctTags(cs) && Cycle(cs, p) && Avoids(p)
    ensures Built(cs).Err?
  {
    hide Built, RefersInto, Refers, Mentions, MentionsAny, Defined;
    var tags := set t | t in p;
    forall t | t in tags
      ensures RefersInto(cs, t, tags) && !BuiltIn(t)
    {
      OnCycleRefers(cs, p, t, tags);
      var k :| 0 <= k < |p| && p[k] == t;
    }
    var i := CycleReferrer(cs, p, tags);
    BlockedTagsFail(cs, tags, i);
  }

  lemma CycleReferrer(cs: seq<Config>, p: seq<string>, tags: set<string>) returns (i: nat)
    requires Cycle(cs, p) && tags == set t | t in p
    ensures i < |cs| && MentionsAny(cs[i], tags)
  {
    assert Refers(cs, p[0], p[1]) && p[1] in tags;
    i :| i < |cs| && cs[i].tag == p[0] && Mentions(cs[i], p[1]);
  }

  // ---- A failure has a cause -------------------------------------------------------------------

  /** Each tag of the set refers to another of it. */
  ghost predicate Hanging(cs: seq<Config>, tags: set<string>) {
    tags != {} && forall t :: t in tags ==> RefersInto(cs, t, tags)
  }

  lemma {:induction false} Walk(cs: seq<Config>, tags: set<string>, n: nat) returns (w: seq<string>)
    requires Hanging(cs, tags)
    ensures |w| == n + 1 && (forall i :: 0 <= i < |w| ==> w[i] in tags)
    ensures forall i :: 0 <= i < n ==> Refers(cs, w[i], w[i + 1])
  {
    hide Refers, RefersInto;
    if n == 0 {
      var t :| t in tags;
      w := [t];
    } else {
      var v := Walk(cs, tags, n - 1);
      var u := Next(cs, tags, v[n - 1]);
      w := v + [u];
    }
  }

  lemma Next(cs: seq<Config>, tags: set<string>, t: string) returns (u: string)
    requires RefersInto(cs, t, tags)
    ensures u in tags && Refers(cs, t, u)
  {
    u :| u in tags && Refers(cs, t, u);
  }

  lemma {:induction false} DistinctFit<T>(w: seq<T>, s: set<T>)
    requires (forall i :: 0 <= i < |w| ==> w[i] in s) && (forall i, j :: 0 <= i < j < |w| ==> w[i] != w[j])
    ensures |w| <= |s|
  {
    if w != [] {
      var last := w[|w| - 1];
      DistinctFit(w[..|w| - 1], s - {last});
    }
  }

  lemma HangingHasCycle(cs: seq<Config>, tags: set<string>) returns (p: seq<string>)
    requires Hanging(cs, tags)
    ensures Cycle(cs, p) && forall i :: 0 <= i < |p| ==> p[i] in tags
  {
    hide Refers, RefersInto;
    var w := Walk(cs, tags, |tags|);
    if forall i, j :: 0 <= i < j < |w| ==> w[i] != w[j] {
      DistinctFit(w, tags);
    }
    var i, j :| 0 <= i < j < |w| && w[i] == w[j];
    p := w[i..j + 1];
    forall k | 0 <= k < |p| - 1
      ensures Refers(cs, p[k], p[k + 1])
    {
      assert p[k] == w[i + k] && p[k + 1] == w[i + k + 1];
    }
  }

  /** What a failure on closed references leaves hangs on each other, and never on an implicit outbound. */
  lemma FailureHasCycle(cs: seq<Config>) returns (p: seq<string>)
    requires Closed(cs) && Built(cs).Err?
    ensures Cycle(cs, p) && Avoids(p)
  {
    hide Refers, RefersInto;
    var left := Built(cs).error;
    var m' := ErrorState(Implicit(Leaves(cs)), Deferred(cs));
    var tags := set i | 0 <= i < |left| && !BuiltIn(left[i].tag) :: left[i].tag;
    assert left[0] in left;
    LeftRefers(cs, m', left, left[0], tags);
    var first := Next(cs, tags, left[0].tag);
    forall t | t in tags
      ensures RefersInto(cs, t, tags)
    {
      var i :| 0 <= i < |left| && left[i].tag == t;
      assert left[i] in left;
      LeftRefers(cs, m', left, left[i], tags);
    }
    p := HangingHasCycle(cs, tags);
  }

  lemma LeftRefers(cs: seq<Config>, m': Outbounds, left: seq<Config>, c: Config, tags: set<string>)
    requires Closed(cs) && c in Deferred(cs) && !Resolvable(m', c)
    requires Accounted(Implicit(Leaves(cs)), Deferred(cs), m', left)
    requires tags == set i | 0 <= i < |left| && !BuiltIn(left[i].tag) :: left[i].tag
    ensures RefersInto(cs, c.tag, tags)
  {
    var k :| 0 <= k < |c.Deps()| && c.Deps()[k] !in m';
    var u := c.Deps()[k];
    DeferredAre(cs, c);
    var n :| 0 <= n < |cs| && cs[n] == c;
    assert Mentions(cs[n], u) && Refers(cs, c.tag, u);
    StartAre(cs, u);
    MissingIsLeft(cs, m', left, u);
    var d :| d in left && d.tag == u;
    var l :| 0 <= l < |left| && left[l] == d;
    assert left[l].tag in tags;
  }

  lemma MissingIsLeft(cs: seq<Config>, m': Outbounds, left: seq<Config>, u: string)
    requires Accounted(Implicit(Leaves(cs)), Deferred(cs), m', left) && Defined(cs, u) && u !in m'
    ensures exists d :: d in left && d.tag == u
  {
    StartAre(cs, u);
    var i :| 0 <= i < |cs| && cs[i].tag == u;
    DeferredAre(cs, cs[i]);
    var j :| 0 <= j < |Deferred(cs)| && Deferred(cs)[j] == cs[i];
    assert Deferred(cs)[j].tag in m' || Deferred(cs)[j] in left;
  }

  /**
   With distinct tags, the configuration builds exactly if every reference is to a defined outbound and every
   closed walk along references passes an implicit one: `direct` and `block` are there before any group.
   */
  lemma BuildsExactly(cs: seq<Config>)
    requires DistinctTags(cs)
    ensures Built(cs).Ok? <==> Closed(cs) && forall p :: Cycle(cs, p) ==> !Avoids(p)
  {
    if Built(cs).Ok? {
      forall i, u | 0 <= i < |cs| && Mentions(cs[i], u)
        ensures Defined(cs, u)
      {
        if !Defined(cs, u) {
          UndefinedFails(cs, i, u);
        }
      }
      forall p | Cycle(cs, p)
        ensures !Avoids(p)
      {
        if Avoids(p) {
          CycleFails(cs, p);
        }
      }
    } else if Closed(cs) {
      var p := FailureHasCycle(cs);
    }
  }

  lemma ReferrersAvoid(cs: seq<Config>, p: seq<string>)
    requires ImplicitNamesKept(cs) && Cycle(cs, p)
    ensures Avoids(p)
  {
    forall i | 0 <= i < |p|
      ensures !BuiltIn(p[i])
    {
      var at := if i == |p| - 1 then 0 else i;
      assert Refers(cs, p[at], p[at + 1]);
    }
  }

  /** So where the implicit names are left to leaves, it builds exactly if references are closed and acyclic. */
  lemma AcyclicBuilds(cs: seq<Config>)
    requires DistinctTags(cs) && ImplicitNamesKept(cs)
    ensures Built(cs).Ok? <==> Closed(cs) && forall p :: !Cycle(cs, p)
  {
    BuildsExactly(cs);
    forall p | Cycle(cs, p)
      ensures Avoids(p)
    {
      ReferrersAvoid(cs, p);
    }
  }

  // ---- What is built ---------------------------------------------------------------------------

  /** n is the node of m called u, or the outbound of an implicit name from before the rounds. */
  predicate Child(m0: Outbounds, m: Outbounds, u: string, n: Node) {
    (u in m && n == m[u]) || (BuiltIn(u) && u in m0 && n == m0[u])
  }

  predicate MadeOf(m0: Outbounds, m: Outbounds, c: Config, n: Node) {
    match c
    case Leaf(tag, kind) => n == LeafNode(tag, kind)
    case Chained(tag, u) => n.ChainedNode? && n.tag == tag && Child(m0, m, u, n.underlying)
    case Group(tag, group, children) =>
      && n.GroupNode? && n.tag == tag && n.group == group && |n.children| == |children|
      && forall i :: 0 <= i < |children| ==> Child(m0, m, children[i], n.children[i])
  }

  /** The node of c is there and made of the nodes its configuration names, in its order. */
  predicate Settled(m0: Outbounds, m: Outbounds, c: Config) {
    c.tag in m && MadeOf(m0, m, c, m[c.tag])
  }

  /** A name that is still to be built is not there, or implicit and as before the rounds. */
  predicate Open(m0: Outbounds, m: Outbounds, t: string) {
    t in m ==> BuiltIn(t) && t in m0 && m[t] == m0[t]
  }

  predicate AllOpen(m0: Outbounds, m: Outbounds, pending: seq<Config>) {
    forall i :: 0 <= i < |pending| ==> Open(m0, m, pending[i].tag)
  }

  lemma NodeIsMadeOf(m0: Outbounds, m: Outbounds, c: Config)
    requires Resolvable(m, c)
    ensures MadeOf(m0, m, c, NodeOf(m, c))
  {
    match c {
      case Leaf(_, _) =>
      case Chained(_, u) => assert c.Deps()[0] == u;
      case Group(_, _, children) => assert c.Deps() == children;
    }
  }

  lemma MadeOfStays(m0: Outbounds, m: Outbounds, t: string, n: Node, c: Config, made: Node)
    requires Open(m0, m, t) && MadeOf(m0, m, c, made)
    ensures MadeOf(m0, m[t := n], c, made)
  {
  }

  lemma SettledStays(m0: Outbounds, m: Outbounds, t: string, n: Node, c: Config)
    requires Open(m0, m, t) && Settled(m0, m, c) && c.tag != t
    ensures Settled(m0, m[t := n], c)
  {
    MadeOfStays(m0, m, t, n, c, m[c.tag]);
  }

  lemma NowSettled(m0: Outbounds, m: Outbounds, c: Config)
    requires Open(m0, m, c.tag) && Resolvable(m, c)
    ensures Settled(m0, m[c.tag := NodeOf(m, c)], c)
  {
    NodeIsMadeOf(m0, m, c);
    MadeOfStays(m0, m, c.tag, NodeOf(m, c), c, NodeOf(m, c));
  }

  /** A round settles what it builds; what it leaves stays open. */
  lemma {:induction false} RoundSettles(m0: Outbounds, m: Outbounds, pending: seq<Config>)
    requires DistinctTags(pending) && AllOpen(m0, m, pending)
    ensures var (m1, left) := Round(m, pending);
      && DistinctTags(left) && AllOpen(m0, m1, left)
      && forall i :: 0 <= i < |pending| ==> pending[i] in left || Settled(m0, m1, pending[i])
    decreases |pending|
  {
    hide Settled, Open, Resolvable, NodeOf;
    if pending != [] {
      var front, last := pending[..|pending| - 1], pending[|pending| - 1];
      assert forall i :: 0 <= i < |front| ==> front[i] == pending[i];
      RoundSettles(m0, m, front);
      RoundShrinks(m, front);
      var (m1, left) := Round(m, front);
      forall i | 0 <= i < |left|
        ensures left[i].tag != last.tag
      {
        assert left[i] in front;
      }
      RoundKeepsOthers(m0, m, front, last.tag);
      if Resolvable(m1, last) {
        var n := NodeOf(m1, last);
        NowSettled(m0, m1, last);
        forall i | 0 <= i < |front| && front[i] !in left
          ensures Settled(m0, m1[last.tag := n], front[i])
        {
          SettledStays(m0, m1, last.tag, n, front[i]);
        }
        forall i | 0 <= i < |left|
          ensures Open(m0, m1[last.tag := n], left[i].tag)
        {
          OpenStays(m0, m1, last.tag, n, left[i].tag);
        }
      }
    }
  }

  lemma OpenStays(m0: Outbounds, m: Outbounds, t: string, n: Node, u: string)
    requires Open(m0, m, u) && u != t
    ensures Open(m0, m[t := n], u)
  {
  }

  /** A round touches no name but those of its own configurations, and loses none. */
  lemma {:induction false} RoundKeepsOthers(m0: Outbounds, m: Outbounds, pending: seq<Config>, t: string)
    ensures var m1 := Round(m, pending).0;
      && (t in m ==> t in m1)
      && (t in m1 ==> t in m || exists i :: 0 <= i < |pending| && pending[i].tag == t)
      && ((forall i :: 0 <= i < |pending| ==> pending[i].tag != t) && t in m1 ==> m1[t] == m[t])
      && ((forall i :: 0 <= i < |pending| ==> pending[i].tag != t) && Open(m0, m, t) ==> Open(m0, m1, t))
    decreases |pending|
  {
    hide Resolvable, NodeOf;
    if pending != [] {
      var front := pending[..|pending| - 1];
      assert forall i :: 0 <= i < |front| ==> front[i] == pending[i];
      RoundKeepsOthers(m0, m, front, t);
    }
  }

  /** What was settled stays settled through a round that does not build it. */
  lemma {:induction false} RoundKeepsSettled(m0: Outbounds, m: Outbounds, pending: seq<Config>, c: Config)
    requires DistinctTags(pending) && AllOpen(m0, m, pending) && Settled(m0, m, c)
    requires forall i :: 0 <= i < |pending| ==> pending[i].tag != c.tag
    ensures Settled(m0, Round(m, pending).0, c)
    decreases |pending|
  {
    hide Settled, Open, Resolvable, NodeOf;
    if pending != [] {
      var front, last := pending[..|pending| - 1], pending[|pending| - 1];
      assert forall i :: 0 <= i < |front| ==> front[i] == pending[i];
      RoundKeepsSettled(m0, m, front, c);
      RoundKeepsOthers(m0, m, front, last.tag);
      var m1 := Round(m, front).0;
      if Resolvable(m1, last) {
        SettledStays(m0, m1, last.tag, NodeOf(m1, last), c);
      }
    }
  }

  lemma {:induction false} SolveSettles(m0: Outbounds, m: Outbounds, pending: seq<Config>, c: Config)
    requires DistinctTags(pending) && AllOpen(m0, m, pending) && Solve(m, pending).Ok?
    requires c in pending || (Settled(m0, m, c) && forall i :: 0 <= i < |pending| ==> pending[i].tag != c.tag)
    ensures Settled(m0, Solve(m, pending).value, c)
    decreases |pending|
  {
    hide Settled, Open;
    if pending != [] {
      var (m1, left) := Round(m, pending);
      RoundSettles(m0, m, pending);
      RoundShrinks(m, pending);
      if c in pending {
        var i :| 0 <= i < |pending| && pending[i] == c;
        if c !in left {
          forall j | 0 <= j < |left|
            ensures left[j].tag != c.tag
          {
            assert left[j] in pending;
          }
        }
      } else {
        RoundKeepsSettled(m0, m, pending, c);
        forall j | 0 <= j < |left|
          ensures left[j].tag != c.tag
        {
          assert left[j] in pending;
        }
      }
      SolveSettles(m0, m1, left, c);
    }
  }

  lemma {:induction false} SolveKeepsOthers(m: Outbounds, pending: seq<Config>, t: string)
    requires Solve(m, pending).Ok?
    ensures var built := Solve(m, pending).value;
      && (t in m ==> t in built)
      && (t in built ==> t in m || exists i :: 0 <= i < |pending| && pending[i].tag == t)
      && ((forall i :: 0 <= i < |pending| ==> pending[i].tag != t) && t in built ==> built[t] == m[t])
    decreases |pending|
  {
    if pending != [] {
      var (m1, left) := Round(m, pending);
      RoundShrinks(m, pending);
      RoundKeepsOthers(m, m, pending, t);
      SolveKeepsOthers(m1, left, t);
      forall j | 0 <= j < |left|
        ensures exists i :: 0 <= i < |pending| && pending[i] == left[j]
      {
        assert left[j] in pending;
      }
    }
  }

  lemma {:induction false} DeferredDistinct(cs: seq<Config>)
    requires DistinctTags(cs)
    ensures DistinctTags(Deferred(cs))
  {
    if cs != [] {
      var front, last := cs[..|cs| - 1], cs[|cs| - 1];
      DeferredDistinct(front);
      forall i | 0 <= i < |Deferred(front)|
        ensures Deferred(front)[i].tag != last.tag
      {
        DeferredAre(front, Deferred(front)[i]);
      }
    }
  }

  lemma {:induction false} LeafNodes(cs: seq<Config>, i: nat)
    requires DistinctTags(cs) && i < |cs| && cs[i].Leaf?
    ensures cs[i].tag in Leaves(cs) && Leaves(cs)[cs[i].tag] == LeafNode(cs[i].tag, cs[i].kind)
  {
    if i < |cs| - 1 {
      LeafNodes(cs[..|cs| - 1], i);
    }
  }

  /**
   What is built: exactly the defined tags, each with the node its configuration asks for, whose children are
   the built nodes its list names, in that order. Only under an implicit name that a group or chained tunnel
   takes can a child be the outbound that stood there before.
   */
  lemma BuiltAsConfigured(cs: seq<Config>, t: string)
    requires DistinctTags(cs) && Built(cs).Ok?
    ensures var m0, built := Implicit(Leaves(cs)), Built(cs).value;
      && (t in built <==> Defined(cs, t))
      && (forall i :: 0 <= i < |cs| ==> Settled(m0, built, cs[i]))
      && (BuiltIn(t) && (forall i :: 0 <= i < |cs| && cs[i].tag == t ==> cs[i].Leaf?) ==> built[t] == m0[t])
  {
    hide Settled;
    var m0, pending, built := Implicit(Leaves(cs)), Deferred(cs), Built(cs).value;
    DeferredDistinct(cs);
    forall j | 0 <= j < |pending|
      ensures Open(m0, m0, pending[j].tag)
    {
      DeferredAre(cs, pending[j]);
      StartAre(cs, pending[j].tag);
    }
    forall i | 0 <= i < |cs|
      ensures Settled(m0, built, cs[i])
    {
      DeferredAre(cs, cs[i]);
      if cs[i].Leaf? {
        LeafSettled(cs, i);
      }
      SolveSettles(m0, m0, pending, cs[i]);
    }
    StartAre(cs, t);
    SolveKeepsOthers(m0, pending, t);
    forall j | 0 <= j < |pending|
      ensures pending[j] in cs && !pending[j].Leaf?
    {
      DeferredAre(cs, pending[j]);
    }
    if Defined(cs, t) && !BuiltIn(t) {
      var i :| 0 <= i < |cs| && cs[i].tag == t;
      SettledIsThere(m0, built, cs[i]);
    }
  }

  lemma SettledIsThere(m0: Outbounds, m: Outbounds, c: Config)
    requires Settled(m0, m, c)
    ensures c.tag in m
  {
  }

  lemma LeafSettled(cs: seq<Config>, i: nat)
    requires DistinctTags(cs) && i < |cs| && cs[i].Leaf?
    ensures var m0 := Implicit(Leaves(cs)); Settled(m0, m0, cs[i])
    ensures forall j :: 0 <= j < |Deferred(cs)| ==> Deferred(cs)[j].tag != cs[i].tag
  {
    LeafNodes(cs, i);
    forall j | 0 <= j < |Deferred(cs)|
      ensures Deferred(cs)[j].tag != cs[i].tag
    {
      DeferredAre(cs, Deferred(cs)[j]);
    }
  }

  /** Names that no outbound takes stand for the direct and the blocking one. */
  lemma ImplicitOutbounds(cs: seq<Config>)
    requires DistinctTags(cs) && Built(cs).Ok?
    ensures (forall i :: 0 <= i < |cs| ==> cs[i].tag != "direct") ==>
      "direct" in Built(cs).value && Built(cs).value["direct"] == LeafNode("direct", Direct)
    ensures (forall i :: 0 <= i < |cs| ==> cs[i].tag != "block") ==>
      "block" in Built(cs).value && Built(cs).value["block"] == LeafNode("block", Block)
  {
    BuiltAsConfigured(cs, "direct");
    BuiltAsConfigured(cs, "block");
    hide Built, Settled, DistinctTags;
    if forall i :: 0 <= i < |cs| ==> cs[i].tag != "direct" {
      LeavesAreTagged(cs, "direct");
    }
    if forall i :: 0 <= i < |cs| ==> cs[i].tag != "block" {
      LeavesAreTagged(cs, "block");
    }
  }

  lemma {:induction false} LeavesAreTagged(cs: seq<Config>, t: string)
    requires forall i :: 0 <= i < |cs| ==> cs[i].tag != t
    ensures t !in Leaves(cs)
  {
    if cs != [] {
      LeavesAreTagged(cs[..|cs| - 1], t);
    }
  }

  /** A group that takes an implicit name hides its own cycle: it resolves to the outbound it replaces. */
  lemma ImplicitNameHidesCycle(g: GroupKind)
    ensures var cs := [Group("direct", g, ["direct"])];
      && Cycle(cs, ["direct", "direct"])
      && Built(cs) == Ok(Implicit(map[])["direct" := GroupNode("direct", g, [LeafNode("direct", Direct)])])
  {
    var c := Group("direct", g, ["direct"]);
    assert c.Deps() == ["direct"];
    ImplicitNodes();
    hide *;
    var m := Implicit(map[]);
    DirectCycle(c);
    GroupAlone(c);
    OneChild(m, "direct", g);
    OneGroup(m, c);
  }

  lemma ImplicitNodes()
    ensures "direct" in Implicit(map[]) && Implicit(map[])["direct"] == LeafNode("direct", Direct)
  {
  }

  lemma OneChild(m: Outbounds, t: string, g: GroupKind)
    requires t in m
    ensures Resolvable(m, Group(t, g, [t])) && NodeOf(m, Group(t, g, [t])) == GroupNode(t, g, [m[t]])
  {
    assert Group(t, g, [t]).Deps() == [t];
    assert NodeOf(m, Group(t, g, [t])).children == [m[t]];
  }

  lemma DirectCycle(c: Config)
    requires c.tag == "direct" && c.Deps() == ["direct"]
    ensures Cycle([c], ["direct", "direct"])
  {
    assert c.Deps()[0] == "direct";
    assert Mentions([c][0], "direct") && Refers([c], "direct", "direct");
  }

  lemma GroupAlone(c: Config)
    requires !c.Leaf?
    ensures Built([c]) == Solve(Implicit(map[]), [c])
  {
    var none: seq<Config> := [];
    assert [c][..0] == none && [c] == none + [c];
    assert Leaves(none) == map[] && Deferred(none) == none;
    assert Leaves([c]) == map[] && Deferred([c]) == none + [c];
    hide Solve, Implicit;
  }

  /** A single group whose children are there is built in the first round. */
  lemma OneGroup(m: Outbounds, c: Config)
    requires Resolvable(m, c)
    ensures Solve(m, [c]) == Ok(m[c.tag := NodeOf(m, c)])
  {
    hide NodeOf, Resolvable;
    var none: seq<Config> := [];
    assert [c][..0] == none;
    assert Round(m, none) == (m, none);
    assert Round(m, [c]) == (m[c.tag := NodeOf(m, c)], none);
  }
}
