/**
 The byte-stream adapter over a tunnel: poll_read hands out received frames piecewise, poll_write passes
 one buffer at a time to send_data. Futures become a busy state that the schedule may or may not complete.
 */
module MirageStream {
  import opened Prelude
  import opened Bytes
  import opened RecordLayer

  /** What the reader's pending recv_data calls will yield, in order. */
  datatype Event = Chunk(bytes: seq<byte>) | Closed | Fault

  datatype ReadState = ReadIdle | ReadBusy | ReadPoisoned
  datatype WriteState = WriteIdle | WriteBusy(data: seq<byte>) | WritePoisoned

  /** Ready(bytes) with no bytes for a nonempty buffer is end of stream. */
  datatype ReadPoll = ReadPending | ReadReady(bytes: seq<byte>) | ReadFailed
  datatype WritePoll = WritePending | WriteReady(n: nat) | WriteFailed

  /** The abstract state: undelivered bytes, frames still to come, the buffer in flight, the sends done. */
  datatype Conn = Conn(unread: seq<byte>, incoming: seq<Event>, inFlight: Option<seq<byte>>,
                       sent: seq<(seq<byte>, bool)>)

  function Handed(c: Conn, bytes: seq<byte>, incoming: seq<Event>, space: nat): (Conn, ReadPoll) {
    var n := Min(|bytes|, space);
    (c.(unread := bytes[n..], incoming := incoming), ReadReady(bytes[..n]))
  }

  /** One poll_read into a buffer with room for space bytes; ready says whether the future has finished. */
  function PolledRead(c: Conn, space: nat, ready: bool): (Conn, ReadPoll) {
    if c.unread != [] then Handed(c, c.unread, c.incoming, space)
    else if !ready || c.incoming == [] then (c, ReadPending)
    else
      match c.incoming[0]
      case Chunk(bytes) => Handed(c, bytes, c.incoming[1..], space)
      case Closed => (c.(incoming := c.incoming[1..]), ReadReady([]))
      case Fault => (c.(incoming := c.incoming[1..]), ReadFailed)
  }

  /** A flush is ready exactly if nothing is in flight or the send in flight ends well, and then nothing is. */
  lemma FlushWaitsForSend(c: Conn, ready: bool, ok: bool)
    ensures var (c', r) := PolledFlush(c, ready, ok);
      && (r.WritePending? <==> c.inFlight.Some? && !ready) && (r.WritePending? ==> c' == c)
      && (r.WriteFailed? <==> c.inFlight.Some? && ready && !ok)
      && (r.WriteReady? ==> r.n == 0)
      && (!r.WritePending? ==> c'.inFlight.None?)
      && c'.sent == c.sent + if c.inFlight.Some? && ready then [(c.inFlight.value, ok)] else []
  {
  }

  /** A poll of the reading half tells an end of stream from a failure. */
  lemma EndsAreTold(c: Conn, space: nat)
    requires c.unread == [] && c.incoming != []
    ensures var r := PolledRead(c, space, true).1;
      && (c.incoming[0].Fault? <==> r.ReadFailed?)
      && (c.incoming[0].Closed? ==> r == ReadReady([]))
  {
  }

  lemma UnreadFirst(c: Conn, space: nat, ready: bool)
    requires c.unread != []
    ensures PolledRead(c, space, ready) == Handed(c, c.unread, c.incoming, space)
  {
  }

  lemma NothingUnread(c: Conn, space: nat, ready: bool)
    requires c.unread == []
    ensures PolledRead(c, space, ready)
         == if !ready || c.incoming == [] then (c, ReadPending)
            else
              var rest := c.(incoming := c.incoming[1..]);
              match c.incoming[0]
              case Chunk(bytes) =>
                if bytes == [] then (rest, ReadReady([])) else Handed(c, bytes, c.incoming[1..], space)
              case Closed => (rest, ReadReady([]))
              case Fault => (rest, ReadFailed)
  {
  }

  /** One poll_write; ready and ok are the state of the send in flight, if any. */
  function PolledWrite(c: Conn, buf: seq<byte>, ready: bool, ok: bool): (Conn, WritePoll) {
    if c.inFlight.None? then (c.(inFlight := Some(buf)), WriteReady(|buf|))
    else if !ready then (c, WritePending)
    else
      var sent := c.sent + [(c.inFlight.value, ok)];
      if ok then (c.(inFlight := Some(buf), sent := sent), WriteReady(|buf|))
      else (c.(inFlight := None, sent := sent), WriteFailed)
  }

  /** A write that is ready has taken the whole buffer, which is then in flight. */
  lemma WriteTakesAll(c: Conn, buf: seq<byte>, ready: bool, ok: bool)
    ensures var (c', r) := PolledWrite(c, buf, ready, ok);
      && (r.WriteReady? ==> r.n == |buf| && c'.inFlight == Some(buf))
      && (r.WriteReady? <==> c.inFlight.None? || (ready && ok))
      && (r.WriteFailed? <==> c.inFlight.Some? && ready && !ok)
      && (r.WritePending? ==> c' == c)
  {
  }

  function PolledFlush(c: Conn, ready: bool, ok: bool): (Conn, WritePoll) {
    if c.inFlight.None? then (c, WriteReady(0))
    else if !ready then (c, WritePending)
    else (c.(inFlight := None, sent := c.sent + [(c.inFlight.value, ok)]), if ok then WriteReady(0) else WriteFailed)
  }

  class MirageStream {
    var read: ReadState
    var write: WriteState
    var readBuf: seq<byte>
    var readPos: nat
    var incoming: seq<Event>
    var sent: seq<(seq<byte>, bool)>

    /** Between polls neither half is ever left in the transient poisoned state. */
    ghost predicate Valid()
      reads this
    {
      readPos <= |readBuf| && !read.ReadPoisoned? && !write.WritePoisoned?
    }

    ghost function State(): Conn
      requires Valid()
      reads this
    {
      Conn(readBuf[readPos..], incoming, if write.WriteBusy? then Some(write.data) else None, sent)
    }

    constructor (incoming: seq<Event>)
      ensures Valid() && State() == Conn([], incoming, None, [])
    {
      read, write := ReadIdle, WriteIdle;
      readBuf, readPos, this.incoming, sent := [], 0, incoming, [];
    }

    method PollRead(space: nat, ready: bool) returns (r: ReadPoll)
      requires Valid()
      modifies this`read, this`readBuf, this`readPos, this`incoming
      ensures Valid() && (State(), r) == PolledRead(old(State()), space, ready)
    {
      hide PolledRead;
      while true
        invariant Valid() && (State() == old(State()) || readPos < |readBuf|)
        invariant PolledRead(State(), space, ready) == PolledRead(old(State()), space, ready)
        decreases if readPos < |readBuf| then 0 else if read.ReadBusy? then 1 else 2
      {
        if readPos < |readBuf| {
          UnreadFirst(State(), space, ready);
          var n := Min(|readBuf| - readPos, space);
          assert readBuf[readPos..][..n] == readBuf[readPos..readPos + n];
          assert readBuf[readPos..][n..] == readBuf[readPos + n..];
          r := ReadReady(readBuf[readPos..readPos + n]);
          readPos := readPos + n;
          return;
        }
        NothingUnread(State(), space, ready);
        var half := read;
        read := ReadPoisoned;
        if half.ReadIdle? {
          read := ReadBusy;
        } else if !ready || incoming == [] {
          read := ReadBusy;
          return ReadPending;
        } else {
          var event := incoming[0];
          incoming := incoming[1..];
          read := ReadIdle;
          match event
          case Chunk(bytes) =>
            if bytes == [] {
              return ReadReady([]);
            }
            readBuf, readPos := bytes, 0;
            UnreadFirst(State(), space, ready);
          case Closed =>
            return ReadReady([]);
          case Fault =>
            return ReadFailed;
        }
      }
    }

    method PollWrite(buf: seq<byte>, ready: bool, ok: bool) returns (r: WritePoll)
      requires Valid()
      modifies this`write, this`sent
      ensures Valid() && (State(), r) == PolledWrite(old(State()), buf, ready, ok)
      ensures r.WriteReady? ==> r.n == |buf|
    {
      WriteTakesAll(State(), buf, ready, ok);
      while true
        invariant Valid()
        invariant write.WriteBusy? ==> State() == old(State())
        invariant write.WriteIdle? ==> PolledWrite(State(), buf, ready, ok) == PolledWrite(old(State()), buf, ready, ok)
        decreases if write.WriteBusy? then 1 else 0
      {
        var half := write;
        write := WritePoisoned;
        match half
        case WriteIdle =>
          write := WriteBusy(buf);
          return WriteReady(|buf|);
        case WriteBusy(data) =>
          if !ready {
            write := WriteBusy(data);
            return WritePending;
          }
          write, sent := WriteIdle, sent + [(data, ok)];
          if !ok {
            return WriteFailed;
          }
      }
    }

    method PollFlush(ready: bool, ok: bool) returns (r: WritePoll)
      requires Valid()
      modifies this`write, this`sent
      ensures Valid() && (State(), r) == PolledFlush(old(State()), ready, ok)
    {
      var half := write;
      write := WritePoisoned;
      match half
      case WriteIdle =>
        write := WriteIdle;
        r := WriteReady(0);
      case WriteBusy(data) =>
        if !ready {
          write := WriteBusy(data);
          return WritePending;
        }
        write, sent := WriteIdle, sent + [(data, ok)];
        r := if ok then WriteReady(0) else WriteFailed;
    }
  }

  // ---- Runs of the reading half ----------------------------------------------------------------

  /** A schedule of polls: room in the buffer, and whether the future has finished by then. */
  type Schedule = seq<(nat, bool)>

  function Reads(c: Conn, sch: Schedule): (Conn, seq<ReadPoll>)
    decreases |sch|
  {
    if sch == [] then (c, []) else
      var (c', r) := PolledRead(c, sch[0].0, sch[0].1);
      var (c'', rs) := Reads(c', sch[1..]);
      (c'', [r] + rs)
  }

  function PolledBytes(polls: seq<ReadPoll>): seq<byte>
    decreases |polls|
  {
    if polls == [] then [] else (if polls[0].ReadReady? then polls[0].bytes else []) + PolledBytes(polls[1..])
  }

  function ChunkBytes(events: seq<Event>): seq<byte>
    decreases |events|
  {
    if events == [] then [] else (if events[0].Chunk? then events[0].bytes else []) + ChunkBytes(events[1..])
  }

  /**
   For every poll schedule and buffer sizes, the bytes handed out, the remainder still buffered and the
   frames still to come are exactly what was there before: nothing is lost, doubled or reordered.
   */
  lemma {:induction false} ReadsConserveBytes(c: Conn, sch: Schedule)
    ensures var (c', polls) := Reads(c, sch);
      PolledBytes(polls) + (c'.unread + ChunkBytes(c'.incoming)) == c.unread + ChunkBytes(c.incoming)
    decreases |sch|
  {
    if sch == [] {
      assert PolledBytes([]) + (c.unread + ChunkBytes(c.incoming)) == c.unread + ChunkBytes(c.incoming);
    } else {
      var (c1, r) := PolledRead(c, sch[0].0, sch[0].1);
      var (c2, polls) := Reads(c1, sch[1..]);
      ReadsConserveBytes(c1, sch[1..]);
      var got := if r.ReadReady? then r.bytes else [];
      PollConservesBytes(c, sch[0].0, sch[0].1);
      AppendAssociates(got, PolledBytes(polls), c2.unread + ChunkBytes(c2.incoming));
    }
  }

  lemma HandedConserves(bytes: seq<byte>, space: nat, rest: seq<byte>)
    ensures bytes[..Min(|bytes|, space)] + (bytes[Min(|bytes|, space)..] + rest) == bytes + rest
  {
    var n := Min(|bytes|, space);
    AppendAssociates(bytes[..n], bytes[n..], rest);
    assert bytes[..n] + bytes[n..] == bytes;
  }

  lemma ChunkFirst(events: seq<Event>)
    requires events != []
    ensures ChunkBytes(events) == (if events[0].Chunk? then events[0].bytes else []) + ChunkBytes(events[1..])
  {
  }

  lemma PollConservesBytes(c: Conn, space: nat, ready: bool)
    ensures var (c', r) := PolledRead(c, space, ready);
      (if r.ReadReady? then r.bytes else []) + (c'.unread + ChunkBytes(c'.incoming))
      == c.unread + ChunkBytes(c.incoming)
  {
    hide ChunkBytes;
    if c.unread != [] {
      HandedConserves(c.unread, space, ChunkBytes(c.incoming));
    } else if ready && c.incoming != [] {
      ChunkFirst(c.incoming);
      var later := ChunkBytes(c.incoming[1..]);
      NothingInFront(later);
      NothingInFront(ChunkBytes(c.incoming));
      if c.incoming[0].Chunk? {
        HandedConserves(c.incoming[0].bytes, space, later);
      }
    } else {
      NothingInFront(c.unread + ChunkBytes(c.incoming));
    }
  }

  lemma NothingInFront(x: seq<byte>)
    ensures [] + x == x
  {
  }

  /** What a consumer collects before the first end of stream or failure. */
  function ReadToEnd(events: seq<Event>): seq<byte>
    decreases |events|
  {
    if events == [] || !events[0].Chunk? || events[0].bytes == [] then [] else events[0].bytes + ReadToEnd(events[1..])
  }

  predicate Ends(r: ReadPoll) {
    r.ReadFailed? || (r.ReadReady? && r.bytes == [])
  }

  /** A consumer that always offers room and stops at the first end has collected exactly ReadToEnd. */
  lemma {:induction false} ConsumerGetsReadToEnd(c: Conn, sch: Schedule, i: nat)
    requires forall k :: 0 <= k < |sch| ==> sch[k].0 > 0
    requires i < |Reads(c, sch).1| && Ends(Reads(c, sch).1[i])
    requires forall k :: 0 <= k < i ==> !Ends(Reads(c, sch).1[k])
    ensures PolledBytes(Reads(c, sch).1[..i]) == c.unread + ReadToEnd(c.incoming)
    decreases i
  {
    var (c1, r) := PolledRead(c, sch[0].0, sch[0].1);
    var later, polls := Reads(c1, sch[1..]).1, Reads(c, sch).1;
    assert polls == [r] + later;
    PollStepsToEnd(c, sch[0].0, sch[0].1);
    if i > 0 {
      assert polls[0] == r && polls[..i][1..] == later[..i - 1];
      forall k | 0 <= k < i - 1
        ensures !Ends(later[k])
      {
        assert later[k] == polls[k + 1];
      }
      ConsumerGetsReadToEnd(c1, sch[1..], i - 1);
    }
  }

  lemma PollStepsToEnd(c: Conn, space: nat, ready: bool)
    requires space > 0
    ensures var (c', r) := PolledRead(c, space, ready);
      if Ends(r) then c.unread + ReadToEnd(c.incoming) == []
      else
        (if r.ReadReady? then r.bytes else []) + (c'.unread + ReadToEnd(c'.incoming))
        == c.unread + ReadToEnd(c.incoming)
  {
    EndFirst(c.incoming);
    hide ReadToEnd;
    if c.unread != [] {
      HandedConserves(c.unread, space, ReadToEnd(c.incoming));
    } else if ready && c.incoming != [] {
      NothingInFront(ReadToEnd(c.incoming));
      if c.incoming[0].Chunk? {
        HandedConserves(c.incoming[0].bytes, space, ReadToEnd(c.incoming[1..]));
      }
    } else {
      NothingInFront(c.unread + ReadToEnd(c.incoming));
    }
  }

  lemma EndFirst(events: seq<Event>)
    ensures ReadToEnd(events)
         == if events == [] || !events[0].Chunk? || events[0].bytes == [] then []
            else events[0].bytes + ReadToEnd(events[1..])
  {
  }

  // ---- An empty record ends the stream early ---------------------------------------------------

  function Events(rs: seq<Record>): seq<Event> {
    seq(|rs|, i requires 0 <= i < |rs| => if rs[i].Data? then Chunk(rs[i].content) else Closed)
  }

  /** The records of a list of padded sends on a writer that has sent `before` records already. */
  ghost predicate Stream(scheme: seq<(nat, nat)>, before: u32, sends: seq<seq<Record>>)
    decreases |sends|
  {
    sends == [] ||
    (Shaped(scheme, true, before, sends[0], true)
     && Stream(scheme, Min(before + |sends[0]|, U32_MAX), sends[1..]))
  }

  /** Whatever is sent from there on, in however many sends, is read back whole before the close. */
  ghost predicate StreamSafe(scheme: seq<(nat, nat)>, before: u32) {
    forall sends: seq<seq<Record>> :: Stream(scheme, before, sends) ==>
      ReadToEnd(Events(Flatten(sends)) + [Closed]) == Contents(Flatten(sends))
  }

  lemma {:induction false} FullRecordsReadWhole(rs: seq<Record>)
    requires forall i :: 0 <= i < |rs| ==> rs[i].Data? && rs[i].content != []
    ensures ReadToEnd(Events(rs) + [Closed]) == Contents(rs)
    decreases |rs|
  {
    if rs == [] {
      assert Events(rs) + [Closed] == [Closed];
    } else {
      FullRecordsReadWhole(rs[1..]);
      assert (Events(rs) + [Closed])[1..] == Events(rs[1..]) + [Closed];
      assert rs == [rs[0]] + rs[1..];
      ContentsAppend([rs[0]], rs[1..]);
      assert Contents([rs[0]]) == rs[0].content by { assert [rs[0]][..0] == []; }
    }
  }

  lemma {:induction false} EmptyRecordCutsStream(rs: seq<Record>, i: nat)
    requires i < |rs| && rs[i] == Data([], 0)
    requires forall k :: 0 <= k < |rs| ==> rs[k].Data?
    ensures |ReadToEnd(Events(rs) + [Closed])| <= |Contents(rs[..i])|
    decreases |rs|
  {
    hide Contents;
    assert (Events(rs) + [Closed])[0] == Chunk(rs[0].content);
    if i > 0 && rs[0].content != [] {
      EmptyRecordCutsStream(rs[1..], i - 1);
      assert (Events(rs) + [Closed])[1..] == Events(rs[1..]) + [Closed];
      FirstContents(rs, i);
    }
  }

  lemma FirstContents(rs: seq<Record>, i: nat)
    requires 0 < i <= |rs| && rs[0].Data?
    ensures Contents(rs[..i]) == rs[0].content + Contents(rs[1..][..i - 1])
  {
    var first, rest := [rs[0]], rs[1..][..i - 1];
    assert rs[..i] == first + rest;
    ContentsAppend(first, rest);
    assert first[..0] == [] && [] + rs[0].content == rs[0].content;
  }

  /** A send that draws the lower end of every slot from `before` to slot j of size one, then has one byte left. */
  function LowDraws(scheme: seq<(nat, nat)>, before: u32, j: nat): (rs: seq<Record>)
    requires ValidScheme(scheme) && before <= j < |scheme|
    requires j + 1 < |scheme| ==> scheme[j + 1].0 >= 2
    ensures |rs| == j - before + 2
  {
    seq(j - before + 2, k requires 0 <= k < j - before + 2 =>
      if before + k <= j then Data(Zeros(scheme[before + k].0 - 1), 0)
      else Data([1], if j + 1 < |scheme| then scheme[j + 1].0 - 2 else 0))
  }

  lemma LastSlotOfOne(scheme: seq<(nat, nat)>, i: nat) returns (j: nat)
    requires ValidScheme(scheme) && i < |scheme| && scheme[i].0 == 1
    ensures i <= j < |scheme| && scheme[j].0 == 1 && (j + 1 < |scheme| ==> scheme[j + 1].0 >= 2)
    decreases |scheme| - i
  {
    j := i;
    if i + 1 < |scheme| && scheme[i + 1].0 == 1 {
      j := LastSlotOfOne(scheme, i + 1);
    }
  }

  lemma LowDrawsAreShaped(scheme: seq<(nat, nat)>, before: u32, j: nat)
    requires ValidScheme(scheme) && before <= j < |scheme| && (j + 1 < |scheme| ==> scheme[j + 1].0 >= 2)
    ensures Shaped(scheme, true, before, LowDraws(scheme, before, j), true)
  {
    var rs := LowDraws(scheme, before, j);
    forall k | 0 <= k < |rs|
      ensures ShapedBy(scheme, true, Min(before + k, U32_MAX), rs[k], k == |rs| - 1)
    {
      var i := before + k;
      if i <= j {
        assert rs[k] == Data(Zeros(scheme[i].0 - 1), 0);
      } else {
        assert i == j + 1 && rs[k] == Data([1], if i < |scheme| then scheme[i].0 - 2 else 0);
      }
    }
  }

  lemma LowDrawsEnd(scheme: seq<(nat, nat)>, before: u32, j: nat)
    requires ValidScheme(scheme) && before <= j < |scheme| && scheme[j].0 == 1
    requires j + 1 < |scheme| ==> scheme[j + 1].0 >= 2
    ensures var rs, n := LowDraws(scheme, before, j), j - before;
      && (forall k :: 0 <= k < |rs| ==> rs[k].Data?)
      && rs[n] == Data([], 0) && |rs[n + 1].content| == 1
  {
    assert Zeros(scheme[j].0 - 1) == [];
  }

  lemma LowDrawsAreCut(scheme: seq<(nat, nat)>, before: u32, j: nat)
    requires ValidScheme(scheme) && before <= j < |scheme| && scheme[j].0 == 1
    requires j + 1 < |scheme| ==> scheme[j + 1].0 >= 2
    ensures !StreamSafe(scheme, before)
  {
    hide Shaped, ReadToEnd, LowDraws, Contents, Stream, StreamSafe, Flatten, Events;
    var rs, n := LowDraws(scheme, before, j), j - before;
    LowDrawsAreShaped(scheme, before, j);
    LowDrawsEnd(scheme, before, j);
    OneSend(scheme, before, rs);
    EmptyRecordCutsStream(rs, n);
    LastContents(rs, n + 1);
    LastContents(rs, n);
    assert rs[..n + 2] == rs;
    CutSendIsUnsafe(scheme, before, [rs]);
  }

  lemma CutSendIsUnsafe(scheme: seq<(nat, nat)>, before: u32, sends: seq<seq<Record>>)
    requires Stream(scheme, before, sends)
    requires |ReadToEnd(Events(Flatten(sends)) + [Closed])| < |Contents(Flatten(sends))|
    ensures !StreamSafe(scheme, before)
  {
    hide Shaped, ReadToEnd, Contents, Stream, Flatten, Events;
  }

  lemma LastContents(rs: seq<Record>, i: nat)
    requires i < |rs| && rs[i].Data?
    ensures |Contents(rs[..i + 1])| == |Contents(rs[..i])| + |rs[i].content|
  {
    assert rs[..i + 1][..i] == rs[..i];
  }

  lemma OneSend(scheme: seq<(nat, nat)>, before: u32, rs: seq<Record>)
    requires Shaped(scheme, true, before, rs, true)
    ensures Stream(scheme, before, [rs]) && Flatten([rs]) == rs
  {
    hide Shaped;
    assert [rs][1..] == [] && rs + [] == rs;
  }

  lemma FullRecords(scheme: seq<(nat, nat)>, before: u32, rs: seq<Record>)
    requires ValidScheme(scheme) && Shaped(scheme, true, before, rs, true)
    requires forall i :: before <= i < |scheme| ==> scheme[i].0 >= 2
    ensures forall i :: 0 <= i < |rs| ==> rs[i].Data? && rs[i].content != []
  {
    forall i | 0 <= i < |rs|
      ensures rs[i].Data? && rs[i].content != []
    {
      assert ShapedBy(scheme, true, Min(before + i, U32_MAX), rs[i], i == |rs| - 1);
    }
  }

  lemma {:induction false} FullSends(scheme: seq<(nat, nat)>, before: u32, sends: seq<seq<Record>>)
    requires ValidScheme(scheme) && Stream(scheme, before, sends)
    requires forall i :: before <= i < |scheme| ==> scheme[i].0 >= 2
    ensures forall i :: 0 <= i < |Flatten(sends)| ==> Flatten(sends)[i].Data? && Flatten(sends)[i].content != []
    decreases |sends|
  {
    hide Shaped;
    if sends != [] {
      FullRecords(scheme, before, sends[0]);
      FullSends(scheme, Min(before + |sends[0]|, U32_MAX), sends[1..]);
    }
  }

  /**
   A byte stream survives padding exactly when no slot still to come can draw a record of size one: such a
   record carries no data, and the adapter takes its empty frame for the end of the stream.
   */
  lemma StreamSafeExactly(scheme: seq<(nat, nat)>, before: u32)
    requires ValidScheme(scheme)
    ensures StreamSafe(scheme, before) <==> forall i :: before <= i < |scheme| ==> scheme[i].0 >= 2
  {
    if i :| before <= i < |scheme| && scheme[i].0 == 1 {
      var j := LastSlotOfOne(scheme, i);
      LowDrawsAreCut(scheme, before, j);
    } else {
      forall sends: seq<seq<Record>> | Stream(scheme, before, sends)
        ensures ReadToEnd(Events(Flatten(sends)) + [Closed]) == Contents(Flatten(sends))
      {
        FullSends(scheme, before, sends);
        FullRecordsReadWhole(Flatten(sends));
      }
    }
  }

  // ---- Runs of the writing half ----------------------------------------------------------------

  datatype WriteOp = Write(buf: seq<byte>, ready: bool, ok: bool) | Flush(ready: bool, ok: bool)

  function WroteOne(c: Conn, op: WriteOp): (Conn, WritePoll) {
    match op
    case Write(buf, ready, ok) => PolledWrite(c, buf, ready, ok)
    case Flush(ready, ok) => PolledFlush(c, ready, ok)
  }

  function Writes(c: Conn, ops: seq<WriteOp>): Conn {
    if ops == [] then c else WroteOne(Writes(c, ops[..|ops| - 1]), ops[|ops| - 1]).0
  }

  /** The buffers for which poll_write answered Ready, in order. */
  function AcceptedBuffers(c: Conn, ops: seq<WriteOp>): seq<seq<byte>> {
    if ops == [] then [] else
      var n := |ops| - 1;
      var r := WroteOne(Writes(c, ops[..n]), ops[n]).1;
      AcceptedBuffers(c, ops[..n]) + (if ops[n].Write? && r.WriteReady? then [ops[n].buf] else [])
  }

  /** Every accepted buffer reaches send_data once and in order; at most the last is still in flight. */
  lemma {:induction false} AcceptedReachSend(c: Conn, ops: seq<WriteOp>)
    requires c.sent == [] && c.inFlight.None?
    ensures var c' := Writes(c, ops);
      AcceptedBuffers(c, ops) == Firsts(c'.sent) + Optional(c'.inFlight)
  {
    if ops != [] {
      var n := |ops| - 1;
      AcceptedReachSend(c, ops[..n]);
      var before, after := Writes(c, ops[..n]), Writes(c, ops);
      if before.inFlight.Some? && after.sent != before.sent {
        assert Firsts(after.sent) == Firsts(before.sent) + [before.inFlight.value];
      }
    }
  }

  /** A flush that succeeds leaves nothing in flight, so everything accepted so far has been sent. */
  lemma FlushDrains(c: Conn, ops: seq<WriteOp>, ready: bool, ok: bool)
    requires c.sent == [] && c.inFlight.None?
    requires PolledFlush(Writes(c, ops), ready, ok).1.WriteReady?
    ensures AcceptedBuffers(c, ops) == Firsts(PolledFlush(Writes(c, ops), ready, ok).0.sent)
  {
    AcceptedReachSend(c, ops);
    var before, after := Writes(c, ops), PolledFlush(Writes(c, ops), ready, ok).0;
    if before.inFlight.Some? {
      assert Firsts(after.sent) == Firsts(before.sent) + [before.inFlight.value];
    } else {
      assert Firsts(before.sent) + [] == Firsts(after.sent);
    }
  }
}
