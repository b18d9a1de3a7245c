/**
 How far the cursor in a flushed file can be ahead of its entries: a flush reads the map and the cursor in two
 steps, and assignments and clears may come between.
 */
module FakeIpAhead {
  import opened Prelude
  import opened FakeIp
  import opened FakeIpPersist
  import opened FakeIpFlush

  // ---- Runs, one event at a time ---------------------------------------------------------------

  lemma {:induction false} LeadsSnoc(r: Range, s: State, events: seq<Event>, m: State, e: Event)
    requires r.Valid() && Leads(r, s, events, m) && Enabled(m, e) && m.mem.next < U32_MAX
    ensures Leads(r, s, events + [e], Step(r, m, e))
    decreases |events|
  {
    hide Enabled, Step;
    if events == [] {
      assert events + [e] == [e] && [e][1..] == [];
      assert Leads(r, Step(r, m, e), [], Step(r, m, e));
    } else {
      LeadsSnoc(r, Step(r, s, events[0]), events[1..], m, e);
      assert (events + [e])[0] == events[0] && (events + [e])[1..] == events[1..] + [e];
    }
  }

  lemma {:induction false} LeadsFront(r: Range, s: State, events: seq<Event>, s': State) returns (u: State)
    requires r.Valid() && events != [] && Leads(r, s, events, s')
    ensures var n := |events| - 1;
      && Leads(r, s, events[..n], u) && Enabled(u, events[n]) && u.mem.next < U32_MAX && s' == Step(r, u, events[n])
    decreases |events|
  {
    hide Enabled, Step;
    var n := |events| - 1;
    if n == 0 {
      u := s;
      assert events[..0] == [] && events[1..] == [];
    } else {
      u := LeadsFront(r, Step(r, s, events[0]), events[1..], s');
      assert events[..n][0] == events[0] && events[..n][1..] == events[1..][..n - 1];
    }
  }

  lemma NothingHappens(r: Range, s: State)
    requires r.Valid()
    ensures Leads(r, s, [], s)
  {
  }

  // ---- The cursor ------------------------------------------------------------------------------

  /** The assignments begun in a list of events, since the last clear among them if there is one. */
  function Begins(events: seq<Event>): nat {
    if events == [] then 0 else
      var front, last := Begins(events[..|events| - 1]), events[|events| - 1];
      if last.StartAssign? then front + 1 else if last.Clear? then 0 else front
  }

  /** The place of an address among those handed out. */
  function Place(r: Range, next: u32): nat
    requires r.Valid() && InUse(r, next)
  {
    next - r.network - 2
  }

  /** The slot at which the cursor stands after events that found it at next. */
  function Moved(r: Range, next: u32, events: seq<Event>): nat
    requires r.Valid() && InUse(r, next)
  {
    Begins(events) + if Event.Clear in events then 0 else Place(r, next)
  }

  lemma PlaceIsSlot(r: Range, next: u32)
    requires r.Valid() && InUse(r, next)
    ensures Place(r, next) < r.Capacity() && r.Slot(Place(r, next)) == next && r.Slot(0) == r.network + 2
  {
    DivModUnique(Place(r, next), 0, r.Capacity(), Place(r, next));
    DivModUnique(0, 0, r.Capacity(), 0);
  }

  lemma CursorMoves(r: Range, u: State, e: Event, n: nat)
    requires r.Valid() && Enabled(u, e) && u.mem.next == r.Slot(n) && u.mem.next < U32_MAX
    ensures Step(r, u, e).mem.next
         == if e.StartAssign? then r.Slot(n + 1) else if e.Clear? then r.network + 2 else r.Slot(n)
  {
    SlotStep(r, n);
    hide Advance, Lower, Range.Slot;
  }

  lemma {:induction false} CursorFollows(r: Range, u: State, events: seq<Event>, u': State)
    requires r.Valid() && InUse(r, u.mem.next) && Leads(r, u, events, u')
    ensures u'.mem.next == r.Slot(Moved(r, u.mem.next, events))
    decreases |events|
  {
    hide Leads, Step, Enabled, Range.Slot;
    PlaceIsSlot(r, u.mem.next);
    if events == [] {
      NothingLeads(r, u, u');
    } else {
      var n := |events| - 1;
      var v := LeadsFront(r, u, events, u');
      CursorFollows(r, u, events[..n], v);
      CursorMoves(r, v, events[n], Moved(r, u.mem.next, events[..n]));
      assert events == events[..n] + [events[n]];
    }
  }

  lemma NothingLeads(r: Range, u: State, u': State)
    requires r.Valid() && Leads(r, u, [], u')
    ensures u' == u
  {
  }

  /** The cursor is back where it was: a round of the slots or none, counted from the first after a clear. */
  predicate Returns(r: Range, next: u32, events: seq<Event>)
    requires r.Valid() && InUse(r, next)
  {
    Begins(events) % r.Capacity() == if Event.Clear in events then Place(r, next) else 0
  }

  lemma ReturnsExactly(r: Range, next: u32, events: seq<Event>)
    requires r.Valid() && InUse(r, next)
    ensures r.Slot(Moved(r, next, events)) == next <==> Returns(r, next, events)
  {
    PlaceIsSlot(r, next);
    if Event.Clear !in events {
      RoundOrNone(Begins(events), Place(r, next), r.Capacity());
    }
  }

  lemma RoundOrNone(b: nat, n: nat, c: nat)
    requires n < c
    ensures (b + n) % c == n <==> b % c == 0
  {
    var q, q' := b / c, (b + n) / c;
    assert b == q * c + b % c && b + n == q' * c + (b + n) % c;
    if b % c == 0 {
      DivModUnique(b + n, q, c, n);
    }
    if (b + n) % c == n {
      DivModUnique(b, q', c, 0);
    }
  }

  // ---- Where a file comes from -----------------------------------------------------------------

  /** A run up to a moment, the snapshot then taken, and what happened until the cursor was read. */
  datatype Trace = Trace(before: seq<Event>, moment: State, mid: seq<Event>)

  /** The events of a flush that read these entries and then the cursor. */
  function Reading(t: Trace, entries: seq<(string, u32)>): seq<Event> {
    t.before + [Snapshot(entries)] + t.mid + [ReadCursor]
  }

  /** The run leads to the snapshot, and from it to the state u by events among which the cursor is not read. */
  ghost predicate SnapshotLeads(r: Range, s: State, t: Trace, entries: seq<(string, u32)>, u: State)
    requires r.Valid()
  {
    && Leads(r, s, t.before, t.moment)
    && t.moment.mem.next < U32_MAX && Enabled(t.moment, Snapshot(entries))
    && ReadCursor !in t.mid && Leads(r, Step(r, t.moment, Snapshot(entries)), t.mid, u)
  }

  /** The image is what a flush early in the events read. */
  ghost predicate WasRead(r: Range, s: State, events: seq<Event>, image: Image)
    requires r.Valid()
  {
    exists t: Trace, u: State ::
      Reading(t, image.entries) <= events && SnapshotLeads(r, s, t, image.entries, u) && u.mem.next == image.next
  }

  ghost predicate IsBeingRead(r: Range, s: State, events: seq<Event>, entries: seq<(string, u32)>, u: State)
    requires r.Valid()
  {
    exists t: Trace :: events == t.before + [Snapshot(entries)] + t.mid && SnapshotLeads(r, s, t, entries, u)
  }

  ghost predicate Tracked(r: Range, s: State, events: seq<Event>, u: State)
    requires r.Valid()
  {
    && (u.file == s.file || (u.file.Some? && WasRead(r, s, events, u.file.value)))
    && match u.holder
       case Snapped(entries) => IsBeingRead(r, s, events, entries, u)
       case Formatted(image) => WasRead(r, s, events, image)
       case Written(image) => WasRead(r, s, events, image)
       case _ => true
  }

  lemma StillRead(r: Range, s: State, events: seq<Event>, e: Event, image: Image)
    requires r.Valid() && WasRead(r, s, events, image)
    ensures WasRead(r, s, events + [e], image)
  {
    hide SnapshotLeads, Reading;
    var t: Trace, u: State :|
      Reading(t, image.entries) <= events && SnapshotLeads(r, s, t, image.entries, u) && u.mem.next == image.next;
    assert Reading(t, image.entries) <= events + [e];
  }

  lemma SnapshotTaken(r: Range, s: State, events: seq<Event>, u: State, entries: seq<(string, u32)>)
    requires r.Valid() && Leads(r, s, events, u) && u.mem.next < U32_MAX && Enabled(u, Snapshot(entries))
    ensures IsBeingRead(r, s, events + [Snapshot(entries)], entries, Step(r, u, Snapshot(entries)))
  {
    hide Step, Enabled;
    var t := Trace(events, u, []);
    NothingHappens(r, Step(r, u, Snapshot(entries)));
    assert events + [Snapshot(entries)] == t.before + [Snapshot(entries)] + t.mid;
    assert SnapshotLeads(r, s, t, entries, Step(r, u, Snapshot(entries)));
  }

  lemma StillBeingRead(r: Range, s: State, events: seq<Event>, u: State, entries: seq<(string, u32)>, e: Event)
    requires r.Valid() && IsBeingRead(r, s, events, entries, u)
    requires Enabled(u, e) && u.mem.next < U32_MAX && e != ReadCursor
    ensures IsBeingRead(r, s, events + [e], entries, Step(r, u, e))
  {
    hide Step, Enabled, Leads;
    var t: Trace :| events == t.before + [Snapshot(entries)] + t.mid && SnapshotLeads(r, s, t, entries, u);
    LeadsSnoc(r, Step(r, t.moment, Snapshot(entries)), t.mid, u, e);
    var t' := t.(mid := t.mid + [e]);
    AppendAssociates(t.before + [Snapshot(entries)], t.mid, [e]);
    assert SnapshotLeads(r, s, t', entries, Step(r, u, e));
  }

  lemma CursorRead(r: Range, s: State, events: seq<Event>, u: State, entries: seq<(string, u32)>)
    requires r.Valid() && IsBeingRead(r, s, events, entries, u)
    ensures WasRead(r, s, events + [ReadCursor], Image(entries, u.mem.next))
  {
    hide SnapshotLeads;
    var t: Trace :| events == t.before + [Snapshot(entries)] + t.mid && SnapshotLeads(r, s, t, entries, u);
    assert Reading(t, entries) == events + [ReadCursor];
  }

  lemma TrackedStep(r: Range, s: State, events: seq<Event>, u: State, e: Event)
    requires r.Valid() && Tracked(r, s, events, u) && Leads(r, s, events, u) && Enabled(u, e) && u.mem.next < U32_MAX
    ensures Tracked(r, s, events + [e], Step(r, u, e))
  {
    hide WasRead, IsBeingRead, Leads, Lower, Assign, Advance, Enumerates;
    if u.file != s.file {
      StillRead(r, s, events, e, u.file.value);
    }
    match u.holder {
      case Snapped(entries) =>
        if e == ReadCursor {
          CursorRead(r, s, events, u, entries);
        } else {
          StillBeingRead(r, s, events, u, entries, e);
        }
      case Formatted(image) => StillRead(r, s, events, e, image);
      case Written(image) => StillRead(r, s, events, e, image);
      case Locked =>
        if e.Snapshot? {
          SnapshotTaken(r, s, events, u, e.entries);
        }
      case _ =>
    }
  }

  lemma {:induction false} RunIsTracked(r: Range, s: State, events: seq<Event>, s': State)
    requires r.Valid() && s.holder.Free? && Leads(r, s, events, s')
    ensures Tracked(r, s, events, s')
    decreases |events|
  {
    hide Leads, WasRead, IsBeingRead, Step, Enabled;
    if events == [] {
      NothingLeads(r, s, s');
    } else {
      var n := |events| - 1;
      var u := LeadsFront(r, s, events, s');
      RunIsTracked(r, s, events[..n], u);
      TrackedStep(r, s, events[..n], u, events[n]);
      assert events == events[..n] + [events[n]];
    }
  }

  // ---- When a file restarts as its moment ------------------------------------------------------

  /** What was read restarts as the moment of the snapshot exactly if its domains stand and the cursor returned. */
  lemma ImageIsItsMoment(r: Range, s: State, t: Trace, u: State, image: Image)
    requires r.Valid() && Started(r, s) && SnapshotLeads(r, s, t, image.entries, u) && u.mem.next == image.next
    ensures InUse(r, t.moment.mem.next)
    ensures Restarted(r, Some(image)) == t.moment.mem
      <==> Writable(t.moment.mem) && Returns(r, t.moment.mem.next, t.mid)
  {
    hide Leads, Loaded, Print, Writable, Returns, Moved, Enumerates, Inverse, Started, InProgress;
    var m := Step(r, t.moment, Snapshot(image.entries));
    StartedIsInv(r, s);
    RunKeepsInv(r, s, t.before, t.moment);
    CursorStaysInUse(r, t.moment);
    MomentIsWellFormed(r, t.moment);
    StepKeepsInv(r, t.moment, Snapshot(image.entries));
    RunKeepsInv(r, m, t.mid, u);
    CursorStaysInUse(r, u);
    CursorFollows(r, m, t.mid, u);
    ReturnsExactly(r, m.mem.next, t.mid);
    LoadInvertsPrint(r, t.moment.mem, image.entries, image.next);
    LoadedIsWritable(r, Print(image.entries, image.next));
    assert image.next == t.moment.mem.next <==> t.moment.mem.(next := image.next) == t.moment.mem;
  }

  lemma MomentIsWellFormed(r: Range, m: State)
    requires r.Valid() && Inv(r, m) && m.assigning.Idle?
    ensures WellFormed(r, m.mem)
  {
  }

  lemma LoadedIsWritable(r: Range, content: string)
    requires r.Valid()
    ensures Writable(Loaded(r, content))
  {
    hide Loaded;
    LoadedAreKept(r, content);
  }

  /**
   In every run, a file that was written since the start comes from one flush of that run, and restarts as the
   tables of the moment of its snapshot exactly if their domains can stand on lines and the cursor had come
   back to its place when it was read: the assignments begun in between are a multiple of the capacity, or,
   after a clear, as many as lead to that place again.
   */
  lemma FileIsItsMoment(r: Range, s: State, events: seq<Event>, s': State) returns (t: Trace)
    requires r.Valid() && Started(r, s) && Leads(r, s, events, s') && s'.file != s.file
    ensures s'.file.Some? && Reading(t, s'.file.value.entries) <= events && ReadCursor !in t.mid
    ensures Leads(r, s, t.before, t.moment) && Enabled(t.moment, Snapshot(s'.file.value.entries))
    ensures InUse(r, t.moment.mem.next)
    ensures Restarted(r, s'.file) == t.moment.mem
      <==> Writable(t.moment.mem) && Returns(r, t.moment.mem.next, t.mid)
  {
    hide Leads, Restarted, Writable, Returns, Enabled, Started;
    StartsQuiet(r, s);
    RunIsTracked(r, s, events, s');
    var image := s'.file.value;
    var u: State;
    t, u :| Reading(t, image.entries) <= events && SnapshotLeads(r, s, t, image.entries, u)
      && u.mem.next == image.next;
    ImageIsItsMoment(r, s, t, u, image);
  }

  // ---- A run that leaves the cursor ahead ------------------------------------------------------

  lemma Take(r: Range, s: State, events: seq<Event>, m: State, e: Event) returns (m': State)
    requires r.Valid() && Started(r, s) && Leads(r, s, events, m) && Enabled(m, e)
    ensures m.mem.next < U32_MAX && m' == Step(r, m, e) && Leads(r, s, events + [e], m')
  {
    StartedIsInv(r, s);
    RunKeepsInv(r, s, events, m);
    StepKeepsInv(r, m, e);
    LeadsSnoc(r, s, events, m, e);
    m' := Step(r, m, e);
  }

  /** One assignment from a quiet state, to its end. */
  lemma Assigns(r: Range, s: State, name: string) returns (events: seq<Event>, m: State)
    requires r.Valid() && Started(r, s) && Lower(name) !in s.mem.d2i
    ensures s.mem.next < U32_MAX && Leads(r, s, events, m)
    ensures var t := Assign(r, s.mem, Lower(name)).0;
      m == s.(mem := t, dirty := true, past := [s.mem, t])
  {
    hide Leads, Started, Lower;
    var none: seq<Event> := [];
    assert Leads(r, s, none, s) by { NothingHappens(r, s); }
    assert s.assigning.Idle? && s.past == [s.mem] && !s.cleared && !s.dirty by { StartsQuiet(r, s); }
    var s1 := Take(r, s, none, s, StartAssign(name));
    var e1 := none + [StartAssign(name)];
    var s2 := Take(r, s, e1, s1, InsertAddress);
    var s3 := Take(r, s, e1 + [InsertAddress], s2, InsertDomain);
    m := Take(r, s, e1 + [InsertAddress] + [InsertDomain], s3, MarkDirty);
    events := e1 + [InsertAddress] + [InsertDomain] + [MarkDirty];
    assert s.past + [s3.mem] == [s.mem, s3.mem];
  }

  lemma StartsQuiet(r: Range, s: State)
    requires r.Valid() && Started(r, s)
    ensures s.assigning.Idle? && s.waiting == 0 && s.holder.Free? && s.past == [s.mem] && !s.cleared && !s.dirty
    ensures WellFormed(r, s.mem)
  {
  }

  /** The cursor can indeed run ahead: a second assignment begins between the snapshot and the reading of the cursor. */
  lemma FileCanRunAhead(r: Range, s: State, a: string, b: string, entries: seq<(string, u32)>)
    returns (events: seq<Event>, s': State)
    requires r.Valid() && Started(r, s) && s.mem.next < U32_MAX && Lower(a) !in s.mem.d2i
    requires var t := Assign(r, s.mem, Lower(a)).0;
      Enumerates(entries, t.d2i) && Writable(t) && Lower(b) !in t.d2i
    ensures Leads(r, s, events, s') && s'.file.Some? && s'.past == [s.mem, Assign(r, s.mem, Lower(a)).0]
    ensures forall t :: t in s'.past ==> Restarted(r, s'.file) != t
  {
    hide Leads, Lower, Started, Enumerates, WellFormed, Writable, Assign, Loaded, Print;
    StartsQuiet(r, s);
    var t := Assign(r, s.mem, Lower(a)).0;
    var e0, m0 := Assigns(r, s, a);
    var m1 := Take(r, s, e0, m0, TakeDirty);
    var m2 := Take(r, s, e0 + [TakeDirty], m1, Lock);
    var m3 := Take(r, s, e0 + [TakeDirty] + [Lock], m2, Snapshot(entries));
    var e3 := e0 + [TakeDirty] + [Lock] + [Snapshot(entries)];
    var m4 := Take(r, s, e3, m3, StartAssign(b));
    var m5 := Take(r, s, e3 + [StartAssign(b)], m4, ReadCursor);
    var m6 := Take(r, s, e3 + [StartAssign(b)] + [ReadCursor], m5, WriteTemp(true));
    s' := Take(r, s, e3 + [StartAssign(b)] + [ReadCursor] + [WriteTemp(true)], m6, Rename(true));
    events := e3 + [StartAssign(b)] + [ReadCursor] + [WriteTemp(true)] + [Rename(true)];
    AheadOfAll(r, s.mem, a, entries);
  }

  lemma AssignIsNew(r: Range, t0: Tables, a: string)
    requires r.Valid() && WellFormed(r, t0) && t0.next < U32_MAX && Lower(a) !in t0.d2i
    ensures var t := Assign(r, t0, Lower(a)).0; var next := Advance(r, t.next);
      && WellFormed(r, t) && Lower(a) in t.d2i && t.d2i != t0.d2i
      && next != t.next && r.network + 2 <= next <= r.network + r.size - 2 && next <= U32_MAX
  {
    hide Lower;
    LowerTwice(a);
    AssignStaysWellFormed(r, t0, Lower(a));
    var t := Assign(r, t0, Lower(a)).0;
    hide Assign, WellFormed;
    CursorStep(r, t.next);
  }

  lemma AheadOfAll(r: Range, t0: Tables, a: string, entries: seq<(string, u32)>)
    requires r.Valid() && WellFormed(r, t0) && t0.next < U32_MAX && Lower(a) !in t0.d2i
    requires Enumerates(entries, Assign(r, t0, Lower(a)).0.d2i) && Writable(Assign(r, t0, Lower(a)).0)
    ensures var t := Assign(r, t0, Lower(a)).0; var next := Advance(r, t.next);
      next <= U32_MAX && Loaded(r, Print(entries, next)) != t0 && Loaded(r, Print(entries, next)) != t
  {
    hide *;
    var t := Assign(r, t0, Lower(a)).0;
    var next := Advance(r, t.next);
    AssignIsNew(r, t0, a);
    LoadInvertsPrint(r, t, entries, next);
    assert Loaded(r, Print(entries, next)) == t.(next := next);
  }
}
