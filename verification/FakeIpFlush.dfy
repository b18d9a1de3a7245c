/**
 Flushing the fake-IP mapper to its file while assignments go on: the dirty flag, the flush lock, and every
 step at which an assignment and several flushes can interleave, with failing writes and renames.
 */
module FakeIpFlush {
  import opened Prelude
  import opened FakeIp
  import opened FakeIpPersist

  /** Where the one assignment that holds the domain map's lock stands. */
  datatype Assigning = Idle | Advanced(domain: string, ip: u32) | Reversed(domain: string, ip: u32) | Mapped

  /** What a flush puts in the file. */
  datatype Image = Image(entries: seq<(string, u32)>, next: u32)

  /** Where the flush that holds the flush lock stands; Finished is about to release it. */
  datatype Holder =
    | Free
    | Locked
    | Snapped(entries: seq<(string, u32)>)
    | Formatted(image: Image)
    | Written(image: Image)
    | Finished

  /**
   The mapper's memory and file, and the progress of its threads: waiting counts the flushes that took the
   dirty flag and have not the lock yet. For the statements only, past lists the tables as they stood at the
   start and after each assignment and clear, and cleared says that the last of these was a clear.
   */
  datatype State = State(mem: Tables, dirty: bool, assigning: Assigning, waiting: nat, holder: Holder,
                         file: Option<Image>, past: seq<Tables>, cleared: bool)

  datatype Event =
    | StartAssign(name: string)
    | InsertAddress
    | InsertDomain
    | MarkDirty
    | TakeDirty
    | Lock
    | Snapshot(entries: seq<(string, u32)>)
    | ReadCursor
    | WriteTemp(ok: bool)
    | Rename(ok: bool)
    | Unlock
    | Clear

  /** The step can be taken: locks are free, and an enumeration is one of the map as it stands. */
  ghost predicate Enabled(s: State, e: Event) {
    match e
    case StartAssign(name) => s.assigning.Idle? && Lower(name) !in s.mem.d2i
    case InsertAddress => s.assigning.Advanced?
    case InsertDomain => s.assigning.Reversed?
    case MarkDirty => s.assigning.Mapped?
    case TakeDirty => true
    case Lock => s.waiting > 0 && s.holder.Free?
    case Snapshot(entries) => s.holder.Locked? && s.assigning.Idle? && Enumerates(entries, s.mem.d2i)
    case ReadCursor => s.holder.Snapped?
    case WriteTemp(_) => s.holder.Formatted?
    case Rename(_) => s.holder.Written?
    case Unlock => s.holder.Finished?
    case Clear => s.assigning.Idle?
  }

  ghost function Step(r: Range, s: State, e: Event): State
    requires r.Valid() && Enabled(s, e) && s.mem.next < U32_MAX
  {
    match e
    case StartAssign(name) =>
      s.(mem := s.mem.(next := Advance(r, s.mem.next)), assigning := Advanced(Lower(name), s.mem.next))
    case InsertAddress =>
      var (domain, ip) := (s.assigning.domain, s.assigning.ip);
      var i2d := s.mem.i2d;
      var d2i := if ip in i2d && i2d[ip] != domain then s.mem.d2i - {i2d[ip]} else s.mem.d2i;
      s.(mem := s.mem.(d2i := d2i, i2d := i2d[ip := domain]), assigning := Reversed(domain, ip))
    case InsertDomain =>
      s.(mem := s.mem.(d2i := s.mem.d2i[s.assigning.domain := s.assigning.ip]), assigning := Mapped)
    case MarkDirty => s.(dirty := true, assigning := Idle, past := s.past + [s.mem], cleared := false)
    case TakeDirty => if s.dirty then s.(dirty := false, waiting := s.waiting + 1) else s
    case Lock => s.(waiting := s.waiting - 1, holder := Locked)
    case Snapshot(entries) => s.(holder := Snapped(entries))
    case ReadCursor => s.(holder := Formatted(Image(s.holder.entries, s.mem.next)))
    case WriteTemp(ok) =>
      if ok then s.(holder := Written(s.holder.image)) else s.(dirty := true, holder := Finished)
    case Rename(ok) =>
      if ok then s.(file := Some(s.holder.image), holder := Finished) else s.(dirty := true, holder := Finished)
    case Unlock => s.(holder := Free)
    case Clear => s.(mem := Empty(r), dirty := false, past := s.past + [Empty(r)], cleared := true)
  }

  /** The tables a mapper starts with from a file. */
  function Restarted(r: Range, file: Option<Image>): Tables
    requires r.Valid()
  {
    if file.None? then Empty(r) else Loaded(r, Print(file.value.entries, file.value.next))
  }

  ghost predicate Saved(r: Range, file: Option<Image>, t: Tables)
    requires r.Valid()
  {
    if file.None? then t == Empty(r) else Enumerates(file.value.entries, t.d2i) && file.value.next == t.next
  }

  /** A mapper that has just been started, from no file or from one that holds its tables. */
  ghost predicate Started(r: Range, s: State)
    requires r.Valid()
  {
    && WellFormed(r, s.mem) && Saved(r, s.file, s.mem) && s.past == [s.mem]
    && !s.dirty && s.assigning.Idle? && s.waiting == 0 && s.holder.Free?
    && !s.cleared
  }

  // ---- The invariant ---------------------------------------------------------------------------

  /** Memory is the last completed tables with the assignment in progress applied as far as it got. */
  ghost predicate InProgress(r: Range, s: State)
    requires r.Valid()
  {
    && s.past != [] && (forall t :: t in s.past ==> WellFormed(r, t))
    && var base := s.past[|s.past| - 1];
      WellFormed(r, base) && (s.cleared ==> base == Empty(r)) &&
      match s.assigning
      case Idle => s.mem == base
      case Advanced(d, ip) => Begun(base, d) && ip == base.next && s.mem == base.(next := Advance(r, base.next))
      case Reversed(d, ip) =>
        && Begun(base, d) && ip == base.next
        && var t := Assign(r, base, d).0;
          s.mem.next == t.next && s.mem.i2d == t.i2d && s.mem.d2i[d := ip] == t.d2i
      case Mapped => exists d :: Begun(base, d) && s.mem == Assign(r, base, d).0
  }

  ghost predicate Begun(base: Tables, d: string) {
    d !in base.d2i && Lower(d) == d
  }

  ghost predicate InUse(r: Range, next: u32)
    requires r.Valid()
  {
    r.network + 2 <= next <= r.network + r.size - 2
  }

  /** The entries of a moment at which no assignment was in progress. */
  ghost predicate OfSomeMoment(past: seq<Tables>, entries: seq<(string, u32)>) {
    exists t :: t in past && Enumerates(entries, t.d2i)
  }

  ghost predicate SoundImage(r: Range, s: State, image: Image)
    requires r.Valid()
  {
    OfSomeMoment(s.past, image.entries) && InUse(r, image.next)
  }

  ghost predicate SoundImages(r: Range, s: State)
    requires r.Valid()
  {
    && (s.file.Some? ==> SoundImage(r, s, s.file.value))
    && match s.holder
      case Snapped(entries) => OfSomeMoment(s.past, entries)
      case Formatted(image) => SoundImage(r, s, image)
      case Written(image) => SoundImage(r, s, image)
      case _ => true
  }

  ghost predicate Current(s: State, image: Image) {
    Enumerates(image.entries, s.mem.d2i) && image.next == s.mem.next
  }

  /** What the lock's holder will have put in the file, or has, is memory as it stands. */
  ghost predicate UpToDate(r: Range, s: State)
    requires r.Valid()
  {
    match s.holder
    case Locked => true
    case Snapped(entries) => Enumerates(entries, s.mem.d2i)
    case Formatted(image) => Current(s, image)
    case Written(image) => Current(s, image)
    case _ => Saved(r, s.file, s.mem)
  }

  ghost predicate Inv(r: Range, s: State)
    requires r.Valid()
  {
    && InProgress(r, s)
    && SoundImages(r, s)
    && (s.dirty || !s.assigning.Idle? || s.waiting > 0 || s.cleared || UpToDate(r, s))
  }

  lemma CursorInUse(r: Range, t: Tables)
    requires r.Valid() && WellFormed(r, t)
    ensures InUse(r, t.next) && t.next < U32_MAX
  {
  }

  lemma AssignStaysWellFormed(r: Range, t: Tables, d: string)
    requires r.Valid() && WellFormed(r, t) && Begun(t, d) && t.next < U32_MAX
    ensures WellFormed(r, Assign(r, t, d).0) && InUse(r, Assign(r, t, d).0.next)
  {
    CursorStep(r, t.next);
  }

  lemma EmptyIsWellFormed(r: Range)
    requires r.Valid()
    ensures WellFormed(r, Empty(r))
  {
  }

  /** A step of the assignment itself, or of a clear. */
  predicate OfMemory(e: Event) {
    e.StartAssign? || e.InsertAddress? || e.InsertDomain? || e.MarkDirty? || e.Clear?
  }

  lemma IdleStep(r: Range, s: State, e: Event)
    requires r.Valid() && InProgress(r, s) && Enabled(s, e) && s.assigning.Idle? && OfMemory(e)
    ensures s.mem.next < U32_MAX && InProgress(r, Step(r, s, e))
  {
    hide WellFormed, Lower, Advance;
    CursorInUse(r, s.mem);
    EmptyIsWellFormed(r);
    if e.StartAssign? {
      LowerTwice(e.name);
    }
  }

  lemma BusyStep(r: Range, s: State, e: Event)
    requires r.Valid() && InProgress(r, s) && Enabled(s, e) && !s.assigning.Idle? && OfMemory(e) && s.mem.next < U32_MAX
    ensures InProgress(r, Step(r, s, e))
  {
    hide WellFormed, Lower, Advance;
    var base := s.past[|s.past| - 1];
    CursorInUse(r, base);
    if s.assigning.Mapped? {
      var d :| Begun(base, d) && s.mem == Assign(r, base, d).0;
      AssignStaysWellFormed(r, base, d);
    }
  }

  lemma CursorStaysInUse(r: Range, s: State)
    requires r.Valid() && InProgress(r, s)
    ensures InUse(r, s.mem.next) && s.mem.next < U32_MAX
  {
    hide WellFormed, Lower, Advance;
    var base := s.past[|s.past| - 1];
    CursorInUse(r, base);
    match s.assigning {
      case Idle =>
      case Advanced(d, _) => AssignStaysWellFormed(r, base, d);
      case Reversed(d, _) => AssignStaysWellFormed(r, base, d);
      case Mapped =>
        var d :| Begun(base, d) && s.mem == Assign(r, base, d).0;
        AssignStaysWellFormed(r, base, d);
    }
    InUseBelowMax(r, s.mem.next);
  }

  /** Every step keeps memory equal to the last completed tables with the assignment in progress applied so far. */
  lemma MemoryStep(r: Range, s: State, e: Event)
    requires r.Valid() && InProgress(r, s) && Enabled(s, e)
    ensures InUse(r, s.mem.next) && s.mem.next < U32_MAX && InProgress(r, Step(r, s, e))
  {
    CursorStaysInUse(r, s);
    if OfMemory(e) {
      if s.assigning.Idle? {
        IdleStep(r, s, e);
      } else {
        BusyStep(r, s, e);
      }
    } else {
      hide InUse, WellFormed, Assign, Advance, Lower, Enumerates, Begun, Empty;
    }
  }

  lemma InUseBelowMax(r: Range, next: u32)
    requires r.Valid() && InUse(r, next)
    ensures next < U32_MAX
  {
  }

  lemma MomentsStay(past: seq<Tables>, t: Tables, entries: seq<(string, u32)>)
    requires OfSomeMoment(past, entries)
    ensures OfSomeMoment(past + [t], entries)
  {
    var u :| u in past && Enumerates(entries, u.d2i);
    assert u in past + [t];
  }

  lemma AllMomentsStay(r: Range, s: State, t: Tables)
    requires r.Valid() && SoundImages(r, s)
    ensures SoundImages(r, s.(past := s.past + [t]))
  {
    hide Enumerates, OfSomeMoment;
    if s.file.Some? {
      MomentsStay(s.past, t, s.file.value.entries);
    }
    match s.holder {
      case Snapped(entries) => MomentsStay(s.past, t, entries);
      case Formatted(image) => MomentsStay(s.past, t, image.entries);
      case Written(image) => MomentsStay(s.past, t, image.entries);
      case _ =>
    }
  }

  lemma ImagesStep(r: Range, s: State, e: Event)
    requires r.Valid() && InProgress(r, s) && SoundImages(r, s) && Enabled(s, e) && InUse(r, s.mem.next)
    ensures SoundImages(r, Step(r, s, e))
  {
    hide Enumerates;
    match e {
      case MarkDirty => AllMomentsStay(r, s, s.mem);
      case Clear => AllMomentsStay(r, s, Empty(r));
      case Snapshot(entries) =>
        assert s.mem in s.past && Enumerates(entries, s.mem.d2i);
      case _ =>
    }
  }

  lemma StepKeepsInv(r: Range, s: State, e: Event)
    requires r.Valid() && Inv(r, s) && Enabled(s, e)
    ensures s.mem.next < U32_MAX && Inv(r, Step(r, s, e))
  {
    MemoryStep(r, s, e);
    ImagesStep(r, s, e);
    hide Enumerates, InProgress, SoundImages;
  }

  /** One interleaving: each event is enabled in the state the ones before it lead to. */
  ghost predicate Leads(r: Range, s: State, events: seq<Event>, s': State)
    requires r.Valid()
    decreases |events|
  {
    if events == [] then s' == s else
      && Enabled(s, events[0]) && s.mem.next < U32_MAX
      && Leads(r, Step(r, s, events[0]), events[1..], s')
  }

  lemma {:induction false} RunKeepsInv(r: Range, s: State, events: seq<Event>, s': State)
    requires r.Valid() && Inv(r, s) && Leads(r, s, events, s')
    ensures Inv(r, s')
    decreases |events|
  {
    if events != [] {
      StepKeepsInv(r, s, events[0]);
      RunKeepsInv(r, Step(r, s, events[0]), events[1..], s');
    }
  }

  lemma StartedIsInv(r: Range, s: State)
    requires r.Valid() && Started(r, s)
    ensures Inv(r, s)
  {
    assert s.mem in s.past;
  }

  predicate Quiescent(s: State) {
    s.assigning.Idle? && s.waiting == 0 && s.holder.Free?
  }

  /**
   In every interleaving of assignments, flushes and clears, whatever writes and renames fail: when nothing is
   in progress and the dirty flag is down, a mapper started from the file has exactly the tables in memory,
   provided every domain is one a line can carry, and only then unless there is no file. A clear that no
   assignment has followed is the one exception, and then memory is empty.
   */
  lemma CleanMeansSaved(r: Range, s: State, events: seq<Event>, s': State)
    requires r.Valid() && Started(r, s) && Leads(r, s, events, s')
    requires Quiescent(s') && !s'.dirty
    ensures s'.cleared ==> s'.mem == Empty(r)
    ensures !s'.cleared ==> (Restarted(r, s'.file) == s'.mem <==> s'.file.None? || Writable(s'.mem))
  {
    hide Loaded, Print, Writable;
    StartedIsInv(r, s);
    RunKeepsInv(r, s, events, s');
    if !s'.cleared && s'.file.Some? {
      var image := s'.file.value;
      assert s'.mem in s'.past;
      LoadInvertsPrint(r, s'.mem, image.entries, image.next);
      assert s'.mem.(next := image.next) == s'.mem;
    }
  }

  lemma PastIsWellFormed(r: Range, s: State)
    requires r.Valid() && InProgress(r, s)
    ensures forall t :: t in s.past ==> WellFormed(r, t)
  {
  }

  /**
   Stopped at any step, the file still restarts as sound tables exactly if the domains in it are ones a line
   can carry: its maps are those of one moment between two assignments, so they are inverse, and only the
   cursor may be ahead of them.
   */
  lemma CrashLeavesSoundFile(r: Range, s: State, events: seq<Event>, s': State) returns (t: Tables)
    requires r.Valid() && Started(r, s) && Leads(r, s, events, s') && s'.file.Some?
    ensures t in s'.past && Enumerates(s'.file.value.entries, t.d2i)
    ensures Restarted(r, s'.file) == t.(next := s'.file.value.next) <==> Writable(t)
    ensures var again := Restarted(r, s'.file);
      Writable(t) ==> WellFormed(r, again) && Started(r, State(again, false, Idle, 0, Free, s'.file, [again], false))
  {
    hide Loaded, Print, Writable, Leads, InProgress, UpToDate;
    StartedIsInv(r, s);
    RunKeepsInv(r, s, events, s');
    PastIsWellFormed(r, s');
    var image := s'.file.value;
    t :| t in s'.past && Enumerates(image.entries, t.d2i);
    LoadInvertsPrint(r, t, image.entries, image.next);
  }

  /**
   A clear at any moment, with flushes under way or not, empties memory and drops the dirty flag but writes no
   file. Until the next assignment a restart gives the empty tables exactly if there is no file or the file
   holds no entry and the first cursor, if the domains in the file are ones a line can carry.
   */
  lemma ClearLeavesTheFile(r: Range, s: State, events: seq<Event>, s': State)
    requires r.Valid() && Started(r, s) && Leads(r, s, events, s')
    requires s'.cleared && s'.assigning.Idle?
    requires s'.file.Some? ==> forall e :: e in s'.file.value.entries ==> CanStand(e.0)
    ensures s'.mem == Empty(r)
    ensures Restarted(r, s'.file) == s'.mem <==>
      s'.file.None? || (s'.file.value.entries == [] && s'.file.value.next == r.network + 2)
  {
    hide Loaded, Print, Writable, CanStand;
    StartedIsInv(r, s);
    RunKeepsInv(r, s, events, s');
    if s'.file.Some? {
      var t := CrashLeavesSoundFile(r, s, events, s');
      var entries := s'.file.value.entries;
      EntriesAreWritable(t, entries);
      assert entries != [] ==> entries[0] in entries;
      if entries == [] {
        assert t.d2i == map[];
        NoDomainsNoAddresses(t);
      }
    }
  }

  lemma EntriesAreWritable(t: Tables, entries: seq<(string, u32)>)
    requires Enumerates(entries, t.d2i)
    ensures (forall e :: e in entries ==> CanStand(e.0)) <==> Writable(t)
  {
    hide CanStand;
    forall d | d in t.d2i
      ensures (d, t.d2i[d]) in entries
    {
    }
  }

  lemma NoDomainsNoAddresses(t: Tables)
    requires Inverse(t) && t.d2i == map[]
    ensures t.i2d == map[]
  {
  }
}
