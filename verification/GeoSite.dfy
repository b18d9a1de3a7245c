/**
 Site rules and their index: exact and suffix rules become two sets, so that a host is looked up by itself and
 by what follows each of its dots, in place of a scan of all rules. Names are their UTF-8 bytes.
 */
module GeoSite {
  import opened Prelude
  import opened Bytes

  /** A compiled regular expression as the set of texts it matches. */
  type Pattern = seq<byte> -> bool

  datatype SiteDomain =
    | Keyword(value: seq<byte>)
    | Regex(value: seq<byte>, compiled: Option<Pattern>)
    | Suffix(value: seq<byte>)
    | Exact(value: seq<byte>)

  function Normal(name: seq<byte>): seq<byte> {
    LowerBytes(TrimDotBytes(name))
  }

  predicate Infix(part: seq<byte>, s: seq<byte>) {
    exists i :: 0 <= i <= |s| && At(s, i, part)
  }

  predicate EndsWith(s: seq<byte>, tail: seq<byte>) {
    |tail| <= |s| && s[|s| - |tail|..] == tail
  }

  /** The rule applied to a host by itself. */
  predicate Matches(rule: SiteDomain, host: seq<byte>) {
    var d := Normal(host);
    match rule
    case Exact(v) => d == v
    case Suffix(v) => d == v || EndsWith(d, [DOT] + v)
    case Keyword(v) => Infix(v, d)
    case Regex(v, compiled) => if compiled.Some? then compiled.value(d) else Infix(v, d)
  }

  datatype Matcher = Matcher(count: nat, exacts: set<seq<byte>>, suffixes: set<seq<byte>>, others: seq<SiteDomain>)

  function Indexed(rules: seq<SiteDomain>): Matcher {
    if rules == [] then Matcher(0, {}, {}, []) else
      var m := Indexed(rules[..|rules| - 1]);
      var rule := rules[|rules| - 1];
      match rule
      case Exact(v) => m.(count := m.count + 1, exacts := m.exacts + {Normal(v)})
      case Suffix(v) => m.(count := m.count + 1, suffixes := m.suffixes + {Normal(v)})
      case _ => m.(count := m.count + 1, others := m.others + [rule])
  }

  method BuildMatcher(rules: seq<SiteDomain>) returns (m: Matcher)
    ensures m == Indexed(rules)
  {
    var exacts: set<seq<byte>>, suffixes: set<seq<byte>>, others: seq<SiteDomain> := {}, {}, [];
    for i := 0 to |rules|
      invariant Matcher(i, exacts, suffixes, others) == Indexed(rules[..i])
    {
      assert rules[..i + 1][..i] == rules[..i];
      match rules[i]
      case Exact(v) => exacts := exacts + {Normal(v)};
      case Suffix(v) => suffixes := suffixes + {Normal(v)};
      case _ => others := others + [rules[i]];
    }
    assert rules[..|rules|] == rules;
    m := Matcher(|rules|, exacts, suffixes, others);
  }

  /** Some dot of d is followed by a name of the set. */
  predicate TailIn(d: seq<byte>, names: set<seq<byte>>) {
    exists i :: 0 <= i < |d| && d[i] == DOT && d[i + 1..] in names
  }

  predicate IndexMatches(m: Matcher, host: seq<byte>) {
    var d := Normal(host);
    || d in m.exacts || d in m.suffixes || TailIn(d, m.suffixes)
    || exists k :: 0 <= k < |m.others| && Matches(m.others[k], host)
  }

  function FirstDot(s: seq<byte>): (i: Option<nat>)
    ensures i.Some? ==> i.value < |s| && s[i.value] == DOT && DOT !in s[..i.value]
    ensures i.None? ==> DOT !in s
  {
    if s == [] then None
    else if s[0] == DOT then Some(0)
    else
      var i :- FirstDot(s[1..]);
      assert s[..i + 1] == [s[0]] + s[1..][..i];
      Some(i + 1)
  }

  /** No dot of d before pos is followed by a name of the set. */
  ghost predicate NoTailBefore(d: seq<byte>, pos: nat, names: set<seq<byte>>) {
    forall i :: 0 <= i < pos && i < |d| && d[i] == DOT ==> d[i + 1..] !in names
  }

  lemma NoTailUpTo(d: seq<byte>, pos: nat, at: nat, names: set<seq<byte>>)
    requires NoTailBefore(d, pos, names) && at <= |d|
    requires forall i :: pos <= i < at ==> d[i] != DOT
    ensures NoTailBefore(d, at, names)
    ensures at < |d| && d[at + 1..] !in names ==> NoTailBefore(d, at + 1, names)
  {
  }

  lemma NoTailIn(d: seq<byte>, names: set<seq<byte>>)
    ensures NoTailBefore(d, |d|, names) <==> !TailIn(d, names)
  {
  }

  lemma TailAt(d: seq<byte>, at: nat, names: set<seq<byte>>)
    requires at < |d| && d[at] == DOT && d[at + 1..] in names
    ensures TailIn(d, names)
  {
  }

  /** Looks up what follows each dot: for a.b.c the names b.c and c. */
  method FindTail(d: seq<byte>, names: set<seq<byte>>) returns (found: bool)
    ensures found <==> TailIn(d, names)
  {
    hide TailIn, NoTailBefore;
    var remaining := d;
    ghost var pos := 0;
    var dot := FirstDot(remaining);
    NoTailAtStart(d, names);
    while dot.Some?
      invariant 0 <= pos <= |d| && remaining == d[pos..] && dot == FirstDot(remaining)
      invariant NoTailBefore(d, pos, names)
      decreases |remaining|
    {
      ghost var at := pos + dot.value;
      NoDotBefore(d, pos, dot.value);
      remaining := remaining[dot.value + 1..];
      if remaining in names {
        TailAt(d, at, names);
        return true;
      }
      NoTailUpTo(d, pos, at, names);
      pos := at + 1;
      dot := FirstDot(remaining);
    }
    NoDotBefore(d, pos, |remaining|);
    NoTailUpTo(d, pos, |d|, names);
    NoTailIn(d, names);
    return false;
  }

  lemma NoTailAtStart(d: seq<byte>, names: set<seq<byte>>)
    ensures NoTailBefore(d, 0, names)
  {
  }

  lemma NoDotBefore(d: seq<byte>, pos: nat, count: nat)
    requires pos + count <= |d| && (DOT !in d[pos..] || DOT !in d[pos..][..count])
    ensures forall i :: pos <= i < pos + count ==> d[i] != DOT
    ensures pos + count < |d| ==> d[pos..][count] == d[pos + count] && d[pos..][count + 1..] == d[pos + count + 1..]
  {
    forall i | pos <= i < pos + count
      ensures d[i] != DOT
    {
      assert d[i] == d[pos..][i - pos] == d[pos..][..count][i - pos];
    }
  }

  method IndexLookup(m: Matcher, host: seq<byte>) returns (found: bool)
    ensures found <==> IndexMatches(m, host)
  {
    hide Normal, TailIn, Matches;
    var d := Normal(host);
    if d in m.exacts {
      return true;
    }
    if d in m.suffixes {
      return true;
    }
    found := FindTail(d, m.suffixes);
    if found {
      return true;
    }
    for k := 0 to |m.others|
      invariant forall j :: 0 <= j < k ==> !Matches(m.others[j], host)
    {
      if Matches(m.others[k], host) {
        return true;
      }
    }
    return false;
  }

  // ---- The index is the scan -------------------------------------------------------------------

  predicate AnyMatches(rules: seq<SiteDomain>, host: seq<byte>) {
    exists i :: 0 <= i < |rules| && Matches(rules[i], host)
  }

  /** The values of exact and suffix rules are in lower case and end in no dot. */
  predicate Normalised(rule: SiteDomain) {
    rule.Exact? || rule.Suffix? ==> Normal(rule.value) == rule.value
  }

  lemma TailIsSuffixRule(d: seq<byte>, v: seq<byte>)
    ensures TailIn(d, {v}) <==> EndsWith(d, [DOT] + v)
  {
    var i := |d| - |v| - 1;
    if EndsWith(d, [DOT] + v) {
      assert d[i..][0] == DOT && d[i..][1..] == v;
      assert d[i + 1..] == v;
    }
    if j :| 0 <= j < |d| && d[j] == DOT && d[j + 1..] == v {
      assert j == i && d[i..] == [DOT] + v;
    }
  }

  lemma TailInGrows(d: seq<byte>, names: set<seq<byte>>, v: seq<byte>)
    ensures TailIn(d, names + {v}) <==> TailIn(d, names) || TailIn(d, {v})
  {
    if i :| 0 <= i < |d| && d[i] == DOT && d[i + 1..] in names + {v} {
      assert d[i + 1..] in names || d[i + 1..] in {v};
    }
  }

  lemma ExactStep(m: Matcher, v: seq<byte>, host: seq<byte>)
    requires Normal(v) == v
    ensures IndexMatches(m.(exacts := m.exacts + {v}), host) <==> IndexMatches(m, host) || Matches(Exact(v), host)
  {
    hide Normal, TailIn;
  }

  lemma SuffixStep(m: Matcher, v: seq<byte>, host: seq<byte>)
    requires Normal(v) == v
    ensures IndexMatches(m.(suffixes := m.suffixes + {v}), host) <==> IndexMatches(m, host) || Matches(Suffix(v), host)
  {
    hide Normal, TailIn;
    TailInGrows(Normal(host), m.suffixes, v);
    TailIsSuffixRule(Normal(host), v);
  }

  lemma OtherStep(m: Matcher, rule: SiteDomain, host: seq<byte>)
    ensures IndexMatches(m.(others := m.others + [rule]), host) <==> IndexMatches(m, host) || Matches(rule, host)
  {
    hide Normal, TailIn, Matches;
    var others := m.others + [rule];
    assert others[|m.others|] == rule;
    if k :| 0 <= k < |m.others| && Matches(m.others[k], host) {
      assert others[k] == m.others[k];
    }
  }

  lemma CountIsIgnored(m: Matcher, count: nat, host: seq<byte>)
    ensures IndexMatches(m.(count := count), host) <==> IndexMatches(m, host)
  {
  }

  /** The index after one more rule matches what it did and what the normalised rule does. */
  lemma IndexStep(m: Matcher, rule: SiteDomain, rules: seq<SiteDomain>, host: seq<byte>)
    requires Normalised(rule) && m == Indexed(rules)
    ensures IndexMatches(Indexed(rules + [rule]), host) <==> IndexMatches(m, host) || Matches(rule, host)
  {
    assert (rules + [rule])[..|rules|] == rules;
    var n := m.(count := m.count + 1);
    CountIsIgnored(m, n.count, host);
    hide Normal, Indexed, IndexMatches, Matches;
    match rule {
      case Exact(v) => ExactStep(n, v, host);
      case Suffix(v) => SuffixStep(n, v, host);
      case _ => OtherStep(n, rule, host);
    }
  }

  /** The index matches a host exactly if some rule does: for any rules with normalised values and any host. */
  lemma {:induction false} IndexIsScan(rules: seq<SiteDomain>, host: seq<byte>)
    requires forall i :: 0 <= i < |rules| ==> Normalised(rules[i])
    ensures IndexMatches(Indexed(rules), host) <==> AnyMatches(rules, host)
  {
    hide Matches, Normal, IndexMatches;
    if rules == [] {
      EmptyIndex(host);
    } else {
      var front, last := rules[..|rules| - 1], rules[|rules| - 1];
      IndexIsScan(front, host);
      IndexStep(Indexed(front), last, front, host);
      assert rules == front + [last];
      if i :| 0 <= i < |rules| && Matches(rules[i], host) {
        assert i == |front| || front[i] == rules[i];
      }
    }
  }

  /** The index knows how many rules it was made of. */
  lemma {:induction false} IndexCounts(rules: seq<SiteDomain>)
    ensures Indexed(rules).count == |rules|
  {
    if rules != [] {
      IndexCounts(rules[..|rules| - 1]);
    }
  }

  /** The compared form of a name: its letters without capitals, and without the dots at its end. */
  lemma NormalIs(name: seq<byte>)
    ensures var n := Normal(name);
      && |n| <= |name| && SameLetterBytes(n, name[..|n|]) && OnlyDotBytes(name[|n|..])
      && (forall i :: 0 <= i < |n| ==> !(65 <= n[i] <= 90)) && (n != [] ==> n[|n| - 1] != 46)
  {
    CleanedBytes(name);
  }

  lemma EmptyIndex(host: seq<byte>)
    ensures !IndexMatches(Indexed([]), host)
  {
  }

  lemma {:induction false} TrimDotsShrinks(s: seq<byte>)
    ensures |TrimDotBytes(s)| <= |s|
  {
    if s != [] {
      TrimDotsShrinks(s[..|s| - 1]);
    }
  }

  lemma LastIndexed(rules: seq<SiteDomain>)
    requires rules != []
    ensures var rule := rules[|rules| - 1];
      && (rule.Exact? ==> Normal(rule.value) in Indexed(rules).exacts)
      && (rule.Suffix? ==> Normal(rule.value) in Indexed(rules).suffixes)
  {
    hide Normal;
  }

  lemma OneRuleIndex(rule: SiteDomain)
    requires rule.Exact? || rule.Suffix?
    ensures Normal(rule.value) in if rule.Exact? then Indexed([rule]).exacts else Indexed([rule]).suffixes
  {
    hide Normal, Indexed;
    LastIndexed([rule]);
  }

  lemma OneRule(rule: SiteDomain, host: seq<byte>)
    requires rule.Exact? || rule.Suffix?
    ensures Normal(host) == Normal(rule.value) ==> IndexMatches(Indexed([rule]), host)
    ensures |Normal(host)| <= |rule.value| && Normal(host) != rule.value ==> !Matches(rule, host)
  {
    hide Normal, Indexed, TailIn;
    OneRuleIndex(rule);
  }

  /** One rule by itself is indexed faithfully for every host exactly if its value is normalised. */
  lemma SingleRuleIsFaithful(rule: SiteDomain)
    ensures Normalised(rule) <==> forall host :: IndexMatches(Indexed([rule]), host) <==> Matches(rule, host)
  {
    TrimDotsShrinks(rule.value);
    assert |Normal(rule.value)| <= |rule.value|;
    hide Normal, Matches, IndexMatches, Indexed;
    if Normalised(rule) {
      forall host
        ensures IndexMatches(Indexed([rule]), host) <==> Matches(rule, host)
      {
        IndexIsScan([rule], host);
        assert Matches(rule, host) <==> Matches([rule][0], host);
      }
    } else {
      OneRule(rule, rule.value);
    }
  }
}
