/**
 Single-flight DNS lookups: concurrent lookups of one domain share one resolution through a global map of
 watch channels, whose entries a guard removes however its lookup ends, while the map can be cleared at any
 moment. And the cache that answers are kept in, bounded in size and age.
 */
module DnsFlight {
  import opened Prelude

  function CleanName(name: string): string {
    Lower(TrimDots(name))
  }

  // ---- The flight map --------------------------------------------------------------------------

  /** The flights after a lookup joins, its channel, and whether it started the flight on that fresh channel. */
  function Joined(flights: map<string, nat>, unused: nat, domain: string): (map<string, nat>, nat, bool) {
    if domain in flights then (flights, flights[domain], false) else (flights[domain := unused], unused, true)
  }

  /** A flight ends: its entry goes if it is still the one of the guard's own channel. */
  function Dropped(flights: map<string, nat>, domain: string, channel: nat): map<string, nat> {
    if domain in flights && flights[domain] == channel then flights - {domain} else flights
  }

  class FlightMap {
    var flights: map<string, nat>
    var channels: nat

    constructor ()
      ensures flights == map[] && channels == 0
    {
      flights, channels := map[], 0;
    }

    /** Joins the flight of the domain, or starts one on a channel never used before. */
    method Join(domain: string) returns (channel: nat, initiates: bool)
      modifies this
      ensures (flights, channel, initiates) == Joined(old(flights), old(channels), domain)
      ensures channels == if initiates then old(channels) + 1 else old(channels)
    {
      if domain in flights {
        return flights[domain], false;
      }
      channel, initiates := channels, true;
      channels := channels + 1;
      flights := flights[domain := channel];
    }

    method DropGuard(domain: string, channel: nat)
      modifies this`flights
      ensures flights == Dropped(old(flights), domain, channel)
    {
      if domain in flights {
        if flights[domain] == channel {
          flights := flights - {domain};
        }
      }
    }

    method Clear()
      modifies this`flights
      ensures flights == map[]
    {
      flights := map[];
    }
  }

  // ---- The protocol ----------------------------------------------------------------------------

  /** A lookup past the cache: it runs the resolver itself, or waits for the one that does. */
  datatype Task =
    | Initiator(domain: string, channel: nat, epoch: nat, sent: bool)
    | Waiter(domain: string, channel: nat)

  datatype Send = Send(domain: string, channel: nat, result: Option<u32>)

  /**
   The flights and the value of each channel, with the lookups under way. For the statements only: the
   domain of each channel, the count of clears and every broadcast made.
   */
  datatype State = State(flights: map<string, nat>, values: seq<Option<u32>>, tasks: map<nat, Task>,
                         domains: seq<string>, epoch: nat, sends: seq<Send>)

  datatype Event =
    | Lookup(task: nat, name: string)
    | Broadcast(task: nat, result: Option<u32>)
    | EndInitiator(task: nat)
    | EndWaiter(task: nat)
    | Clear

  const START := State(map[], [], map[], [], 0, [])

  predicate Enabled(s: State, e: Event) {
    match e
    case Lookup(t, _) => t !in s.tasks
    case Broadcast(t, _) =>
      t in s.tasks && s.tasks[t].Initiator? && !s.tasks[t].sent && s.tasks[t].channel < |s.values|
    case EndInitiator(t) => t in s.tasks && s.tasks[t].Initiator?
    case EndWaiter(t) => t in s.tasks && s.tasks[t].Waiter?
    case Clear => true
  }

  /** An initiator may end before it broadcasts: cancelled, timed out or panicked. */
  function Step(s: State, e: Event): State
    requires Enabled(s, e)
  {
    match e
    case Lookup(t, name) =>
      var domain := CleanName(name);
      var (flights, channel, initiates) := Joined(s.flights, |s.values|, domain);
      if !initiates then s.(tasks := s.tasks[t := Waiter(domain, channel)])
      else
        s.(flights := flights,
           values := s.values + [None],
           domains := s.domains + [domain],
           tasks := s.tasks[t := Initiator(domain, channel, s.epoch, false)])
    case Broadcast(t, result) =>
      var i := s.tasks[t];
      s.(values := s.values[i.channel := result],
         tasks := s.tasks[t := i.(sent := true)],
         sends := s.sends + [Send(i.domain, i.channel, result)])
    case EndInitiator(t) =>
      s.(flights := Dropped(s.flights, s.tasks[t].domain, s.tasks[t].channel), tasks := s.tasks - {t})
    case EndWaiter(t) => s.(tasks := s.tasks - {t})
    case Clear => s.(flights := map[], epoch := s.epoch + 1)
  }

  /** One interleaving of lookups, broadcasts, cancellations and clears, from the empty map; None if it cannot be. */
  function Run(events: seq<Event>): Option<State>
    decreases |events|
  {
    if events == [] then Some(START) else
      var s :- Run(events[..|events| - 1]);
      if Enabled(s, events[|events| - 1]) then Some(Step(s, events[|events| - 1])) else None
  }

  // ---- The invariant ---------------------------------------------------------------------------

  predicate Runs(s: State, t: nat, domain: string, channel: nat) {
    t in s.tasks && s.tasks[t].Initiator? && s.tasks[t].domain == domain && s.tasks[t].channel == channel
  }

  predicate Listed(flights: map<string, nat>, domain: string, channel: nat) {
    domain in flights && flights[domain] == channel
  }

  ghost predicate EntriesHaveInitiators(s: State) {
    forall d :: d in s.flights ==> exists t: nat :: Runs(s, t, d, s.flights[d]) && s.tasks[t].epoch == s.epoch
  }

  ghost predicate InitiatorsHaveEntries(s: State) {
    forall t :: t in s.tasks && s.tasks[t].Initiator? ==>
      && s.tasks[t].epoch <= s.epoch
      && (s.tasks[t].epoch == s.epoch ==> Listed(s.flights, s.tasks[t].domain, s.tasks[t].channel))
  }

  ghost predicate ChannelsAreOwned(s: State) {
    forall t, u :: t in s.tasks && u in s.tasks && s.tasks[t].Initiator? && s.tasks[u].Initiator? ==>
      s.tasks[t].channel == s.tasks[u].channel ==> t == u
  }

  ghost predicate ChannelsMatch(s: State) {
    && |s.domains| == |s.values|
    && (forall d :: d in s.flights ==> s.flights[d] < |s.values| && s.domains[s.flights[d]] == d)
    && (forall t :: t in s.tasks ==>
          s.tasks[t].channel < |s.values| && s.domains[s.tasks[t].channel] == s.tasks[t].domain)
  }

  /** What was broadcast on a channel is what it carries, and it was sent for the domain of the channel. */
  ghost predicate SendsLanded(s: State) {
    && |s.domains| == |s.values|
    && (forall k :: 0 <= k < |s.sends| ==>
          && s.sends[k].channel < |s.values|
          && s.values[s.sends[k].channel] == s.sends[k].result
          && s.domains[s.sends[k].channel] == s.sends[k].domain)
  }

  ghost predicate OneSendPerChannel(s: State) {
    forall j, k :: 0 <= j < k < |s.sends| ==> s.sends[j].channel != s.sends[k].channel
  }

  ghost predicate ValuesHaveSends(s: State) {
    && |s.domains| == |s.values|
    && (forall c :: 0 <= c < |s.values| && s.values[c].Some? ==>
          Send(s.domains[c], c, s.values[c]) in s.sends)
  }

  ghost predicate UnsentAreOpen(s: State) {
    forall t, k :: t in s.tasks && s.tasks[t].Initiator? && !s.tasks[t].sent && 0 <= k < |s.sends| ==>
      s.sends[k].channel != s.tasks[t].channel
  }

  /** A channel carries None until its one broadcast, then what was broadcast. */
  ghost predicate ValuesWereSent(s: State) {
    SendsLanded(s) && OneSendPerChannel(s) && ValuesHaveSends(s) && UnsentAreOpen(s)
  }

  ghost predicate Inv(s: State) {
    && EntriesHaveInitiators(s) && InitiatorsHaveEntries(s) && ChannelsAreOwned(s)
    && ChannelsMatch(s) && ValuesWereSent(s)
  }

  lemma EntriesStep(s: State, e: Event)
    requires Inv(s) && Enabled(s, e)
    ensures EntriesHaveInitiators(Step(s, e))
  {
    hide ValuesWereSent, ChannelsMatch, CleanName;
    var s' := Step(s, e);
    forall d | d in s'.flights
      ensures exists t: nat :: Runs(s', t, d, s'.flights[d]) && s'.tasks[t].epoch == s'.epoch
    {
      if d in s.flights && s.flights[d] == s'.flights[d] {
        var t: nat :| Runs(s, t, d, s.flights[d]) && s.tasks[t].epoch == s.epoch;
        assert Runs(s', t, d, s'.flights[d]);
      } else {
        assert Runs(s', e.task, d, s'.flights[d]);
      }
    }
  }

  lemma InitiatorsStep(s: State, e: Event)
    requires Inv(s) && Enabled(s, e)
    ensures InitiatorsHaveEntries(Step(s, e))
  {
    hide ValuesWereSent, EntriesHaveInitiators, CleanName;
  }

  lemma OwnersStep(s: State, e: Event)
    requires ChannelsMatch(s) && ChannelsAreOwned(s) && Enabled(s, e)
    ensures ChannelsAreOwned(Step(s, e))
  {
    hide CleanName;
  }

  lemma ChannelsStep(s: State, e: Event)
    requires ChannelsMatch(s) && Enabled(s, e)
    ensures ChannelsMatch(Step(s, e))
  {
    hide CleanName;
  }

  lemma ValuesAfterLookup(s: State, t: nat, name: string)
    requires ValuesWereSent(s) && Enabled(s, Lookup(t, name))
    ensures ValuesWereSent(Step(s, Lookup(t, name)))
  {
    hide CleanName;
    var s' := Step(s, Lookup(t, name));
    forall c | 0 <= c < |s'.values| && s'.values[c].Some?
      ensures Send(s'.domains[c], c, s'.values[c]) in s'.sends
    {
      assert Send(s.domains[c], c, s.values[c]) in s.sends;
    }
  }

  lemma BroadcastLands(s: State, t: nat, result: Option<u32>)
    requires ChannelsMatch(s) && ValuesWereSent(s) && Enabled(s, Broadcast(t, result))
    ensures SendsLanded(Step(s, Broadcast(t, result))) && OneSendPerChannel(Step(s, Broadcast(t, result)))
  {
    hide ValuesHaveSends;
  }

  lemma BroadcastIsSent(s: State, t: nat, result: Option<u32>)
    requires ChannelsMatch(s) && ValuesHaveSends(s) && Enabled(s, Broadcast(t, result))
    ensures ValuesHaveSends(Step(s, Broadcast(t, result)))
  {
    var s' := Step(s, Broadcast(t, result));
    var last := s'.sends[|s.sends|];
    forall c | 0 <= c < |s'.values| && s'.values[c].Some?
      ensures Send(s'.domains[c], c, s'.values[c]) in s'.sends
    {
      if c == s.tasks[t].channel {
        assert Send(s'.domains[c], c, s'.values[c]) == last;
      } else {
        assert Send(s.domains[c], c, s.values[c]) in s.sends;
      }
    }
  }

  lemma OthersStayOpen(s: State, t: nat, result: Option<u32>)
    requires ChannelsAreOwned(s) && UnsentAreOpen(s) && Enabled(s, Broadcast(t, result))
    ensures UnsentAreOpen(Step(s, Broadcast(t, result)))
  {
    var s' := Step(s, Broadcast(t, result));
    forall u, k | u in s'.tasks && s'.tasks[u].Initiator? && !s'.tasks[u].sent && 0 <= k < |s'.sends|
      ensures s'.sends[k].channel != s'.tasks[u].channel
    {
      assert u != t && s'.tasks[u] == s.tasks[u];
    }
  }

  lemma ValuesStep(s: State, e: Event)
    requires Inv(s) && Enabled(s, e)
    ensures ValuesWereSent(Step(s, e))
  {
    match e
    case Lookup(t, name) => ValuesAfterLookup(s, t, name);
    case Broadcast(t, result) =>
      BroadcastLands(s, t, result);
      BroadcastIsSent(s, t, result);
      OthersStayOpen(s, t, result);
    case EndInitiator(_) =>
    case EndWaiter(_) =>
    case Clear =>
  }

  lemma {:induction false} RunKeepsInv(events: seq<Event>)
    requires Run(events).Some?
    ensures Inv(Run(events).value)
    decreases |events|
  {
    if events != [] {
      var before, e := events[..|events| - 1], events[|events| - 1];
      RunKeepsInv(before);
      EntriesStep(Run(before).value, e);
      InitiatorsStep(Run(before).value, e);
      OwnersStep(Run(before).value, e);
      ChannelsStep(Run(before).value, e);
      ValuesStep(Run(before).value, e);
    }
  }

  // ---- Properties of every interleaving --------------------------------------------------------

  /** The entries are exactly the flights whose initiator is live and began since the last clear. */
  lemma EntriesAreLiveFlights(events: seq<Event>, domain: string, channel: nat)
    requires Run(events).Some?
    ensures var s := Run(events).value;
      Listed(s.flights, domain, channel)
      <==> exists t: nat :: Runs(s, t, domain, channel) && s.tasks[t].epoch == s.epoch
  {
    RunKeepsInv(events);
  }

  /** Of the lookups of one domain begun since the last clear, at most one runs the resolver. */
  lemma OneInitiatorPerEpoch(events: seq<Event>, t: nat, u: nat)
    requires Run(events).Some?
    requires var s := Run(events).value;
      && t in s.tasks && s.tasks[t].Initiator? && u in s.tasks && s.tasks[u].Initiator?
      && s.tasks[t].domain == s.tasks[u].domain && s.tasks[t].epoch == s.tasks[u].epoch == s.epoch
    ensures t == u
  {
    RunKeepsInv(events);
  }

  /** A guard removes its own entry or none: one begun before a clear leaves the map as it is. */
  lemma GuardsRemoveTheirOwn(events: seq<Event>, t: nat)
    requires Run(events).Some? && Enabled(Run(events).value, EndInitiator(t))
    ensures var s := Run(events).value;
      Step(s, EndInitiator(t)).flights
      == if s.tasks[t].epoch == s.epoch then s.flights - {s.tasks[t].domain} else s.flights
  {
    RunKeepsInv(events);
  }

  /** A lookup begun while another is under way shares its flight exactly if it asks for the same name. */
  lemma LookupsShareExactly(events: seq<Event>, t: nat, a: string, u: nat, b: string)
    requires Run(events).Some? && t != u
    requires t !in Run(events).value.tasks && u !in Run(events).value.tasks
    ensures var s := Step(Step(Run(events).value, Lookup(t, a)), Lookup(u, b));
      s.tasks[t].channel == s.tasks[u].channel <==> SameName(a, b)
  {
    RunKeepsInv(events);
    CleanedAgree(a, b);
    var s := Run(events).value;
    var s' := Step(s, Lookup(t, a));
    ChannelsStep(s, Lookup(t, a));
    ChannelsStep(s', Lookup(u, b));
    hide SameName, Lower;
  }

  /** In every run, two lookups on one flight were made of the same name. */
  lemma SharersAskedAlike(events: seq<Event>, t: nat, u: nat) returns (a: string, b: string)
    requires Run(events).Some? && t in Run(events).value.tasks && u in Run(events).value.tasks
    requires Run(events).value.tasks[t].channel == Run(events).value.tasks[u].channel
    ensures Lookup(t, a) in events && Lookup(u, b) in events && SameName(a, b)
  {
    RunKeepsInv(events);
    a := TaskWasLookedUp(events, t);
    b := TaskWasLookedUp(events, u);
    CleanedAgree(a, b);
  }

  lemma {:induction false} TaskWasLookedUp(events: seq<Event>, t: nat) returns (name: string)
    requires Run(events).Some? && t in Run(events).value.tasks
    ensures Lookup(t, name) in events && Run(events).value.tasks[t].domain == CleanName(name)
    decreases |events|
  {
    hide CleanName;
    var front, last := events[..|events| - 1], events[|events| - 1];
    if last.Lookup? && last.task == t {
      name := last.name;
    } else {
      name := TaskWasLookedUp(front, t);
    }
  }

  /** No entry outlives its lookup: with no initiator left the map is empty. */
  lemma NoInitiatorsNoEntries(events: seq<Event>)
    requires Run(events).Some?
    requires forall t :: t in Run(events).value.tasks ==> Run(events).value.tasks[t].Waiter?
    ensures Run(events).value.flights == map[]
  {
    RunKeepsInv(events);
    assert forall d :: d !in Run(events).value.flights;
  }

  /**
   A waiter that answers with an address answers with what the one resolution of its flight, for its own
   domain, broadcast; once that is broadcast every waiter of the flight answers it.
   */
  lemma WaitersGetTheResolution(events: seq<Event>, t: nat, k: nat)
    requires Run(events).Some? && Enabled(Run(events).value, EndWaiter(t))
    ensures var s := Run(events).value; var w := s.tasks[t];
      && w.channel < |s.values|
      && (s.values[w.channel].Some? ==> Send(w.domain, w.channel, s.values[w.channel]) in s.sends)
      && (k < |s.sends| && s.sends[k].channel == w.channel ==> s.values[w.channel] == s.sends[k].result)
  {
    RunKeepsInv(events);
  }

  // ---- The answer cache ------------------------------------------------------------------------

  const CACHE_MAX := 4096
  const CACHE_TTL := 1800

  /** An answer, whether the domain is direct, and when it was cached, in seconds of a monotonic clock. */
  datatype Cached = Cached(ip: u32, direct: bool, at: nat)

  predicate Alive(c: Cached, now: nat) {
    now - c.at < CACHE_TTL
  }

  function Unexpired(entries: map<string, Cached>, now: nat): map<string, Cached> {
    map d | d in entries && Alive(entries[d], now) :: entries[d]
  }

  /** What is left of a cache that drops expired entries, and the lost one. */
  ghost predicate Kept(before: map<string, Cached>, after: map<string, Cached>, now: nat, lost: Option<string>) {
    && (forall d :: d in after ==> d in before && after[d] == before[d])
    && (forall d :: d in before && Alive(before[d], now) && lost != Some(d) ==> d in after)
  }

  function Answer(entries: map<string, Cached>, name: string, now: nat): Option<Cached> {
    var d := CleanName(name);
    if d in entries && Alive(entries[d], now) then Some(entries[d]) else None
  }

  /**
   What is inserted under one name is found under another exactly if the two have the same letters but for
   dots at the end, and for 1800 seconds; every other name finds what it found before.
   */
  lemma AnswersExactly(entries: map<string, Cached>, a: string, ip: u32, direct: bool, at: nat, b: string, now: nat)
    ensures Answer(entries[CleanName(a) := Cached(ip, direct, at)], b, now)
         == if !SameName(a, b) then Answer(entries, b, now)
            else if now - at < 1800 then Some(Cached(ip, direct, at)) else None
  {
    CleanedAgree(a, b);
    hide SameName;
  }

  lemma {:induction false} SubsetSize<T>(a: set<T>, b: set<T>)
    requires a <= b
    ensures |a| <= |b|
  {
    if x :| x in a {
      SubsetSize(a - {x}, b - {x});
    }
  }

  class DirectCache {
    var entries: map<string, Cached>

    constructor ()
      ensures entries == map[]
    {
      entries := map[];
    }

    method MakeRoom(now: nat) returns (ghost lost: Option<string>)
      requires |entries| <= 4096
      modifies this
      ensures |entries| < 4096 && Kept(old(entries), entries, now, lost)
      ensures |old(entries)| < 4096 || |Unexpired(old(entries), now)| < 4096 ==> lost.None?
    {
      lost := None;
      if |entries| >= CACHE_MAX {
        SubsetSize(Unexpired(entries, now).Keys, entries.Keys);
        entries := Unexpired(entries, now);
        if |entries| >= CACHE_MAX {
          assert entries.Keys != {};
          var k :| k in entries;
          lost := Some(k);
          assert (entries - {k}).Keys == entries.Keys - {k};
          entries := entries - {k};
        }
      }
    }

    /**
     Keeps the bound and caches the answer. Only expired entries are lost, and one live entry at most, only
     when the cache is full of them.
     */
    method Insert(name: string, ip: u32, direct: bool, now: nat) returns (ghost lost: Option<string>)
      requires |entries| <= 4096
      modifies this
      ensures |entries| <= 4096
      ensures exists room ::
        Kept(old(entries), room, now, lost) && entries == room[CleanName(name) := Cached(ip, direct, now)]
      ensures |old(entries)| < 4096 || |Unexpired(old(entries), now)| < 4096 ==> lost.None?
      ensures forall n: string, later: nat :: SameName(name, n) ==>
        Answer(entries, n, later) == if later - now < 1800 then Some(Cached(ip, direct, now)) else None
    {
      forall n: string
        ensures CleanName(n) == CleanName(name) <==> SameName(name, n)
      {
        CleanedAgree(name, n);
      }
      hide SameName, CleanName;
      lost := MakeRoom(now);
      ghost var room := entries;
      var d := CleanName(name);
      assert entries[d := Cached(ip, direct, now)].Keys == entries.Keys + {d};
      entries := entries[d := Cached(ip, direct, now)];
      assert Kept(old(entries), room, now, lost);
    }

    method Lookup(name: string, now: nat) returns (answer: Option<Cached>)
      ensures answer == Answer(entries, name, now)
    {
      var d := CleanName(name);
      if d !in entries {
        return None;
      }
      answer := if Alive(entries[d], now) then Some(entries[d]) else None;
    }

    method Clear()
      modifies this
      ensures entries == map[]
    {
      entries := map[];
    }
  }
}
