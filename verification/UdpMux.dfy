/**
 UDP flows multiplexed over one tunnel: length-prefixed frames, the pump that coalesces them into sends,
 and the pump that reassembles and routes them whatever record boundaries they cross.
 */
module UdpMux {
  import opened Prelude
  import opened Bytes
  import opened RecordLayer
  import opened RecordReader

  const COALESCE_CAP := 16 * 1024
  const ACC_LIMIT := 65536 * 2

  type Octets4 = o: seq<byte> | |o| == 4 witness Zeros(4)
  type Octets16 = o: seq<byte> | |o| == 16 witness Zeros(16)

  datatype Target = Domain(name: seq<byte>) | Ipv4(ip: Octets4) | Ipv6(ip6: Octets16)

  datatype Datagram = Datagram(sid: u32, target: Target, port: u16, payload: seq<byte>)

  // ---- Framing ---------------------------------------------------------------------------------

  function AtypAndAddr(t: Target): Option<seq<byte>> {
    match t
    case Domain(name) => if |name| > 255 then None else Some([3, |name| as byte] + name)
    case Ipv4(ip) => Some([1] + ip)
    case Ipv6(ip) => Some([4] + ip)
  }

  /** The frame of a datagram, unless the name or the body is too long. */
  function FrameMux(d: Datagram): Option<seq<byte>> {
    var addr :- AtypAndAddr(d.target);
    var bodyLen := 4 + |addr| + 2 + |d.payload|;
    if bodyLen > U16_MAX then None
    else Some(U16Bytes(bodyLen) + U32Bytes(d.sid) + addr + U16Bytes(d.port) + d.payload)
  }

  /** The offset of the payload behind ATYP, address and port, for the three known address types. */
  function PayloadOffset(inner: seq<byte>): Option<nat>
    requires inner != []
  {
    if inner[0] == 1 then Some(7)
    else if inner[0] == 4 then Some(19)
    else if inner[0] == 3 && |inner| >= 2 then Some(4 + inner[1] as nat)
    else None
  }

  /** One frame off the front of a buffer: flow, payload and length consumed; None while it is incomplete. */
  function ParseMuxFrame(buf: seq<byte>): (r: Option<(u32, seq<byte>, nat)>)
    ensures r.Some? ==> 2 <= r.value.2 <= |buf|
    ensures r.None? ==> |buf| < 2 + 65535
  {
    if |buf| < 2 then None else
      var total := 2 + U16At(buf, 0);
      if |buf| < total then None else
        var frame := buf[2..total];
        if |frame| < 4 then Some((0, [], total)) else
          var sid := U32At(frame, 0);
          var inner := frame[4..];
          if inner == [] then Some((sid, [], total)) else
            match PayloadOffset(inner)
            case None => Some((sid, [], total))
            case Some(off) => Some((sid, if off > |inner| then [] else inner[off..], total))
  }

  lemma FrameLayout(d: Datagram, f: seq<byte>, addr: seq<byte>)
    requires FrameMux(d) == Some(f) && AtypAndAddr(d.target) == Some(addr)
    ensures |f| == 2 + U16At(f, 0) && |f| >= 8
    ensures U32At(f[2..], 0) == d.sid
    ensures f[2..][4..] == addr + U16Bytes(d.port) + d.payload
  {
    var body := U32Bytes(d.sid) + addr + U16Bytes(d.port) + d.payload;
    assert f == U16Bytes(|body|) + body;
    assert f[2..] == body;
    U32RoundTrip(d.sid, addr + U16Bytes(d.port) + d.payload);
    assert body == U32Bytes(d.sid) + (addr + U16Bytes(d.port) + d.payload);
  }

  lemma OffsetSkipsAddress(t: Target, addr: seq<byte>, port: u16, payload: seq<byte>)
    requires AtypAndAddr(t) == Some(addr)
    ensures var inner := addr + U16Bytes(port) + payload;
      PayloadOffset(inner) == Some(|addr| + 2) && inner[|addr| + 2..] == payload
  {
  }

  /** The target of a datagram on the wire: its type, and the very bytes of its name or address. */
  predicate Spells(addr: seq<byte>, t: Target) {
    match t
    case Domain(name) => |addr| == 2 + |name| && addr[0] == 3 && addr[1] as nat == |name| && addr[2..] == name
    case Ipv4(ip) => |addr| == 5 && addr[0] == 1 && addr[1..] == ip
    case Ipv6(ip) => |addr| == 17 && addr[0] == 4 && addr[1..] == ip
  }

  /**
   A frame is its length in two bytes, the stream id in four, the target, the port and the payload; there is
   none exactly if the name is longer than 255 bytes or the rest than 65535.
   */
  lemma FrameHolds(d: Datagram)
    ensures FrameMux(d).None? <==>
      (d.target.Domain? && |d.target.name| > 255) || 4 + TargetSize(d.target) + 2 + |d.payload| > 65535
    ensures FrameMux(d).Some? ==>
      var f, end := FrameMux(d).value, 6 + TargetSize(d.target);
      && |f| == end + 2 + |d.payload| && U16At(f, 0) == |f| - 2 && U32At(f, 2) == d.sid
      && Spells(f[6..end], d.target) && U16At(f, end) == d.port && f[end + 2..] == d.payload
  {
    if FrameMux(d).Some? {
      var f, end, addr := FrameMux(d).value, 6 + TargetSize(d.target), AtypAndAddr(d.target).value;
      FrameLayout(d, f, addr);
      hide FrameMux, U32At, U16At;
      var inner := f[2..][4..];
      assert f[6..] == inner;
      assert f[6..end] == inner[..|addr|] == addr;
      assert f[end + 2..] == inner[|addr| + 2..] == d.payload;
      PortAt(f, end, inner, addr, d.port, d.payload);
      SidAt(f, d.sid);
    }
  }

  function TargetSize(t: Target): nat {
    match t
    case Domain(name) => 2 + |name|
    case Ipv4(_) => 5
    case Ipv6(_) => 17
  }

  lemma PortAt(f: seq<byte>, end: nat, inner: seq<byte>, addr: seq<byte>, port: u16, payload: seq<byte>)
    requires inner == addr + U16Bytes(port) + payload && |f| >= 6 && f[6..] == inner && end == 6 + |addr|
    ensures |f| >= end + 2 && U16At(f, end) == port
  {
    assert f[end] == inner[|addr|] && f[end + 1] == inner[|addr| + 1];
    U16RoundTrip(port, []);
  }

  lemma SidAt(f: seq<byte>, sid: u32)
    requires |f| >= 6 && U32At(f[2..], 0) == sid
    ensures U32At(f, 2) == sid
  {
  }

  /** Parsing a framed datagram returns its flow and payload and consumes exactly the frame. */
  lemma ParseInvertsFrame(d: Datagram, f: seq<byte>, rest: seq<byte>)
    requires FrameMux(d) == Some(f)
    ensures ParseMuxFrame(f + rest) == Some((d.sid, d.payload, |f|))
  {
    var addr := AtypAndAddr(d.target).value;
    FrameLayout(d, f, addr);
    OffsetSkipsAddress(d.target, addr, d.port, d.payload);
    assert (f + rest)[..2] == f[..2];
    assert U16At(f + rest, 0) == U16At(f, 0);
    assert (f + rest)[2..|f|] == f[2..];
  }

  /**
   A frame that is no datagram is consumed all the same: too short for a stream id it belongs to stream 0, and
   without a known address type, or cut before the payload, it has none.
   */
  lemma OddFrames(frame: seq<byte>, rest: seq<byte>)
    requires |frame| <= 65535
    ensures var r := ParseMuxFrame(U16Bytes(|frame|) + frame + rest); var n := 2 + |frame|;
      && r.Some? && r.value.2 == n
      && (|frame| < 4 ==> r == Some((0, [], n)))
      && (|frame| >= 4 ==> r.value.0 == U32At(frame, 0))
      && (|frame| == 4 || (|frame| > 4 && frame[4] != 1 && frame[4] != 3 && frame[4] != 4) ==> r.value.1 == [])
      && (|frame| > 4 && frame[4] == 1 ==> r.value.1 == if |frame| < 11 then [] else frame[11..])
      && (|frame| > 4 && frame[4] == 4 ==> r.value.1 == if |frame| < 23 then [] else frame[23..])
      && (|frame| == 5 && frame[4] == 3 ==> r.value.1 == [])
      && (|frame| > 5 && frame[4] == 3 ==>
            var off := 8 + frame[5] as nat;
            r.value.1 == if |frame| < off then [] else frame[off..])
  {
    var buf, n := U16Bytes(|frame|) + frame + rest, 2 + |frame|;
    U16RoundTrip(|frame|, frame + rest);
    AppendAssociates(U16Bytes(|frame|), frame, rest);
    assert buf[2..n] == frame;
    hide U16At, U32At, U16Bytes;
    if |frame| > 4 {
      var inner := frame[4..];
      assert inner[0] == frame[4] && (|frame| > 5 ==> inner[1] == frame[5]);
      assert forall k :: 4 <= k <= |frame| ==> inner[k - 4..] == frame[k..];
    }
  }

  // ---- Demultiplexing --------------------------------------------------------------------------

  /** Every complete frame at the front of a buffer, and the bytes left over. */
  function Demux(buf: seq<byte>): (seq<(u32, seq<byte>)>, seq<byte>)
    decreases |buf|
  {
    match ParseMuxFrame(buf)
    case None => ([], buf)
    case Some((sid, payload, consumed)) =>
      var (frames, rest) := Demux(buf[consumed..]);
      ([(sid, payload)] + frames, rest)
  }

  lemma MoreBytesDoNotChangeAFrame(x: seq<byte>, y: seq<byte>)
    requires ParseMuxFrame(x).Some?
    ensures ParseMuxFrame(x + y) == ParseMuxFrame(x)
  {
    var total := 2 + U16At(x, 0);
    assert (x + y)[2..total] == x[2..total];
  }

  /** Demultiplexing in two pieces is demultiplexing the whole. */
  lemma {:induction false} DemuxInPieces(x: seq<byte>, y: seq<byte>)
    ensures Demux(x + y).0 == Demux(x).0 + Demux(Demux(x).1 + y).0
    ensures Demux(x + y).1 == Demux(Demux(x).1 + y).1
    decreases |x|
  {
    if ParseMuxFrame(x).Some? {
      var (sid, payload, consumed) := ParseMuxFrame(x).value;
      MoreBytesDoNotChangeAFrame(x, y);
      assert (x + y)[consumed..] == x[consumed..] + y;
      DemuxInPieces(x[consumed..], y);
      AppendAssociates([(sid, payload)], Demux(x[consumed..]).0, Demux(Demux(x).1 + y).0);
    } else {
      assert Demux(x).0 + Demux(x + y).0 == Demux(x + y).0;
    }
  }

  /** Moving the next frame from the buffer to the frames done. */
  lemma DemuxStep(acc: seq<byte>, done: seq<(u32, seq<byte>)>)
    requires ParseMuxFrame(acc).Some?
    ensures var (sid, payload, consumed) := ParseMuxFrame(acc).value;
      && done + Demux(acc).0 == (done + [(sid, payload)]) + Demux(acc[consumed..]).0
      && Demux(acc).1 == Demux(acc[consumed..]).1
  {
    var (sid, payload, consumed) := ParseMuxFrame(acc).value;
    AppendAssociates(done, [(sid, payload)], Demux(acc[consumed..]).0);
  }

  lemma {:induction false} RemainderIsIncomplete(buf: seq<byte>)
    ensures ParseMuxFrame(Demux(buf).1).None?
    ensures |Demux(buf).1| < 2 + 65535
    decreases |buf|
  {
    if ParseMuxFrame(buf).Some? {
      RemainderIsIncomplete(buf[ParseMuxFrame(buf).value.2..]);
    }
  }

  /** The sids registered at the moment the k-th frame is routed: flows come and go while the pump runs. */
  type FlowTable = nat -> set<u32>

  predicate Routed(flows: FlowTable, k: nat, f: (u32, seq<byte>)) {
    f.1 != [] && f.0 in flows(k)
  }

  /** What reaches the flows: nonempty payloads of sids registered at their moment; from counts the frames before. */
  function Delivered(flows: FlowTable, from: nat, frames: seq<(u32, seq<byte>)>): seq<(u32, seq<byte>)> {
    if frames == [] then [] else
      var n := |frames| - 1;
      Delivered(flows, from, frames[..n]) + (if Routed(flows, from + n, frames[n]) then [frames[n]] else [])
  }

  /** The frames at the positions, in increasing order, that have a payload and a registered sid at their moment. */
  ghost predicate Selects(flows: FlowTable, from: nat, frames: seq<(u32, seq<byte>)>, at: seq<nat>,
                          chosen: seq<(u32, seq<byte>)>)
  {
    && |at| == |chosen|
    && (forall j :: 0 <= j < |at| ==> at[j] < |frames| && chosen[j] == frames[at[j]])
    && (forall i, j :: 0 <= i < j < |at| ==> at[i] < at[j])
    && (forall k :: 0 <= k < |frames| ==> (k in at <==> |frames[k].1| > 0 && frames[k].0 in flows(from + k)))
  }

  /** Delivered are exactly the frames with a payload whose sid is registered at their moment, in order. */
  lemma {:induction false} DeliveredExactly(flows: FlowTable, from: nat, frames: seq<(u32, seq<byte>)>)
    returns (at: seq<nat>)
    ensures Selects(flows, from, frames, at, Delivered(flows, from, frames))
  {
    hide Selects, Routed, Delivered;
    if frames == [] {
      at := [];
      DeliveredOneMore(flows, from, frames);
      SelectsNothing(flows, from);
    } else {
      var n := |frames| - 1;
      var f := frames[n];
      at := DeliveredExactly(flows, from, frames[..n]);
      SelectsOneMore(flows, from, frames[..n], f, at, Delivered(flows, from, frames[..n]));
      DeliveredOneMore(flows, from, frames);
      assert frames[..n] + [f] == frames;
      if Routed(flows, from + n, f) {
        at := at + [n];
      }
    }
  }

  lemma DeliveredOneMore(flows: FlowTable, from: nat, frames: seq<(u32, seq<byte>)>)
    ensures frames == [] ==> Delivered(flows, from, frames) == []
    ensures frames != [] ==>
      var n := |frames| - 1;
      var front := Delivered(flows, from, frames[..n]);
      Delivered(flows, from, frames) == if Routed(flows, from + n, frames[n]) then front + [frames[n]] else front
  {
    hide Routed;
  }

  lemma SelectsNothing(flows: FlowTable, from: nat)
    ensures Selects(flows, from, [], [], [])
  {
  }

  lemma SelectsOneMore(flows: FlowTable, from: nat, front: seq<(u32, seq<byte>)>, f: (u32, seq<byte>), at: seq<nat>,
                       chosen: seq<(u32, seq<byte>)>)
    requires Selects(flows, from, front, at, chosen)
    ensures Routed(flows, from + |front|, f) ==> Selects(flows, from, front + [f], at + [|front|], chosen + [f])
    ensures !Routed(flows, from + |front|, f) ==> Selects(flows, from, front + [f], at, chosen)
  {
    var n, frames := |front|, front + [f];
    forall k | 0 <= k < n
      ensures k in at + [n] <==> k in at
    {
    }
    assert forall k :: 0 <= k < n ==> frames[k] == front[k];
    assert n !in at;
  }

  class DemuxPump {
    var acc: seq<byte>
    var routed: nat
    var delivered: seq<(u32, seq<byte>)>

    constructor ()
      ensures acc == [] && routed == 0 && delivered == []
    {
      acc, routed, delivered := [], 0, [];
    }

    /** One received chunk. The over-long accumulator check never fires, for any bytes whatever. */
    method OnChunk(chunk: seq<byte>, flows: FlowTable) returns (alive: bool)
      modifies this
      ensures var (frames, rest) := Demux(old(acc) + chunk);
        && delivered == old(delivered) + Delivered(flows, old(routed), frames)
        && routed == old(routed) + |frames| && acc == rest
      ensures alive
    {
      hide Delivered, Demux, ParseMuxFrame;
      acc := acc + chunk;
      ghost var all, rest := Demux(acc).0, Demux(acc).1;
      ghost var done := [];
      var next := ParseMuxFrame(acc);
      DeliveredNothing(flows, routed);
      while next.Some?
        invariant next == ParseMuxFrame(acc)
        invariant all == done + Demux(acc).0 && rest == Demux(acc).1
        invariant routed == old(routed) + |done|
        invariant delivered == old(delivered) + Delivered(flows, old(routed), done)
        decreases |acc|
      {
        var (sid, payload, consumed) := next.value;
        DeliverOneMore(flows, old(routed), done, (sid, payload));
        if payload != [] {
          if sid in flows(routed) {
            delivered := delivered + [(sid, payload)];
          }
        }
        DemuxStep(acc, done);
        done := done + [(sid, payload)];
        routed := routed + 1;
        acc := acc[consumed..];
        next := ParseMuxFrame(acc);
      }
      NoFrame(acc);
      RemainderIsIncomplete(acc);
      assert done + [] == done;
      alive := |acc| <= ACC_LIMIT;
    }
  }

  lemma NoFrame(acc: seq<byte>)
    requires ParseMuxFrame(acc).None?
    ensures Demux(acc) == ([], acc)
  {
  }

  lemma DeliverOneMore(flows: FlowTable, from: nat, done: seq<(u32, seq<byte>)>, f: (u32, seq<byte>))
    ensures Delivered(flows, from, done + [f])
         == Delivered(flows, from, done) + (if Routed(flows, from + |done|, f) then [f] else [])
  {
    assert (done + [f])[..|done|] == done;
  }

  /** The demux pump over a list of received chunks. */
  function DemuxChunks(acc: seq<byte>, chunks: seq<seq<byte>>): (seq<(u32, seq<byte>)>, seq<byte>)
    decreases |chunks|
  {
    if chunks == [] then ([], acc) else
      var (frames, rest) := Demux(acc + chunks[0]);
      var (more, last) := DemuxChunks(rest, chunks[1..]);
      (frames + more, last)
  }

  /** Record boundaries are invisible: any chunking gives what the concatenation gives. */
  lemma {:induction false} ChunkingIsInvisible(acc: seq<byte>, chunks: seq<seq<byte>>)
    requires ParseMuxFrame(acc).None?
    ensures DemuxChunks(acc, chunks) == Demux(acc + Flatten(chunks))
    decreases |chunks|
  {
    if chunks == [] {
      assert acc + Flatten(chunks) == acc;
    } else {
      hide Demux, ParseMuxFrame;
      var rest := Demux(acc + chunks[0]).1;
      RemainderIsIncomplete(acc + chunks[0]);
      ChunkingIsInvisible(rest, chunks[1..]);
      AppendAssociates(acc, chunks[0], Flatten(chunks[1..]));
      DemuxInPieces(acc + chunks[0], Flatten(chunks[1..]));
    }
  }

  // ---- End to end ------------------------------------------------------------------------------

  ghost predicate Framable(ds: seq<Datagram>) {
    forall i :: 0 <= i < |ds| ==> FrameMux(ds[i]).Some?
  }

  function MuxFrames(ds: seq<Datagram>): (fs: seq<seq<byte>>)
    requires Framable(ds)
    ensures |fs| == |ds|
  {
    seq(|ds|, i requires 0 <= i < |ds| => FrameMux(ds[i]).value)
  }

  function Payloads(ds: seq<Datagram>): (ps: seq<(u32, seq<byte>)>)
    ensures |ps| == |ds|
  {
    seq(|ds|, i requires 0 <= i < |ds| => (ds[i].sid, ds[i].payload))
  }

  lemma MuxFramesCons(ds: seq<Datagram>)
    requires Framable(ds) && ds != []
    ensures Flatten(MuxFrames(ds)) == FrameMux(ds[0]).value + Flatten(MuxFrames(ds[1..]))
    ensures Payloads(ds) == [(ds[0].sid, ds[0].payload)] + Payloads(ds[1..])
  {
    assert MuxFrames(ds)[1..] == MuxFrames(ds[1..]);
  }

  /** The concatenated frames of datagrams demultiplex to their flows and payloads, with nothing left. */
  lemma {:induction false} DemuxInvertsFrames(ds: seq<Datagram>)
    requires Framable(ds)
    ensures Demux(Flatten(MuxFrames(ds))) == (Payloads(ds), [])
  {
    if ds != [] {
      var f := FrameMux(ds[0]).value;
      var rest := Flatten(MuxFrames(ds[1..]));
      MuxFramesCons(ds);
      ParseInvertsFrame(ds[0], f, rest);
      assert (f + rest)[|f|..] == rest;
      DemuxInvertsFrames(ds[1..]);
    }
  }

  /** Everything a pump has sent since nonce n and frame `at` carries text. */
  ghost predicate Pumped(w: CryptoWriter, n: u64, at: nat, rs: seq<Record>, text: seq<byte>)
    requires w.Valid()
    reads w
  {
    && Carries(w.aead, w.CurrentKey(), n, rs, text, w.written, at)
    && w.nonce == n + |rs|
    && AllData(rs)
  }

  ghost predicate AllData(rs: seq<Record>) {
    forall i :: 0 <= i < |rs| ==> rs[i].Data?
  }

  lemma BatchSent(a: Aead, k: Key, n: u64, rs: seq<Record>, text: seq<byte>, written: seq<seq<byte>>, at: nat,
                  scheme: seq<(nat, nat)>, padding: bool, before: u32,
                  more: seq<Record>, batch: seq<byte>, written': seq<seq<byte>>, complete: bool)
    requires a.Correct() && Carries(a, k, n, rs, text, written, at) && AllData(rs)
    requires Sent(a, k, n + |rs|, scheme, padding, before, more, batch, written', |written|, complete)
    requires written <= written'
    ensures Carries(a, k, n, rs + more, text + batch, written', at) && AllData(rs + more)
  {
    assert n + |rs| <= U64_MAX;
    hide Carries, Sent, Aead.Correct;
    SentCarries(a, k, n + |rs|, scheme, padding, before, more, batch, written', |written|, complete);
    CarriesAppend(a, k, n, rs, text, written, at, more, batch, written');
  }

  method SendBatch(w: CryptoWriter, batch: seq<byte>, ghost n: u64, ghost at: nat,
                   ghost rs: seq<Record>, ghost text: seq<byte>)
    returns (ok: bool, ghost rs': seq<Record>)
    requires w.Valid() && Pumped(w, n, at, rs, text)
    modifies w`nonce, w`written, w`recordsSent, w`seals
    ensures ok ==> Pumped(w, n, at, rs', text + batch)
    ensures !ok ==> exists part :: part < batch && Pumped(w, n, at, rs', text + part)
    ensures old(w.written) <= w.written
  {
    hide Sent, Carries, AllData, Contents, Aead.Correct;
    ghost var written, before := w.written, w.recordsSent;
    ghost var more;
    ok, more := w.SendData(batch);
    rs' := rs + more;
    BatchSent(w.aead, w.CurrentKey(), n, rs, text, written, at, w.scheme, w.padding, before,
              more, Contents(more), w.written, ok);
    if !ok {
      assert Contents(more) < batch && Pumped(w, n, at, rs', text + Contents(more));
    }
  }

  /** The uplink pump: takes a frame, drains what is ready up to the cap, and sends the batch. */
  method WriterPump(w: CryptoWriter, queue: seq<seq<byte>>) returns (ok: bool, ghost rs: seq<Record>)
    requires w.Valid()
    modifies w`nonce, w`written, w`recordsSent, w`seals
    ensures ok ==> Pumped(w, old(w.nonce), |old(w.written)|, rs, Flatten(queue))
    ensures !ok ==> exists text :: text < Flatten(queue) && Pumped(w, old(w.nonce), |old(w.written)|, rs, text)
    ensures old(w.written) <= w.written
  {
    rs := [];
    var i := 0;
    ghost var n, at, text := w.nonce, |w.written|, [];
    assert queue[..0] == [];
    while i < |queue|
      invariant i <= |queue| && text == Flatten(queue[..i])
      invariant Pumped(w, n, at, rs, text)
      invariant old(w.written) <= w.written
    {
      var batch;
      ghost var taken := i;
      batch, i := Coalesce(queue, i);
      ok, rs := SendBatch(w, batch, n, at, rs, text);
      if !ok {
        ghost var part :| part < batch && Pumped(w, n, at, rs, text + part);
        CutShort(queue, taken, i, batch, part);
        return false, rs;
      }
      text := text + batch;
    }
    assert queue[..i] == queue;
    ok := true;
  }

  lemma CutShort(queue: seq<seq<byte>>, taken: nat, i: nat, batch: seq<byte>, part: seq<byte>)
    requires taken <= i <= |queue| && Flatten(queue[..i]) == Flatten(queue[..taken]) + batch && part < batch
    ensures Flatten(queue[..taken]) + part < Flatten(queue)
  {
    hide Flatten;
    FlattenAppend(queue[..i], queue[i..]);
    assert queue[..i] + queue[i..] == queue;
    CutIsPrefix(Flatten(queue[..taken]), batch, part, Flatten(queue[i..]));
  }

  lemma CutIsPrefix(x: seq<byte>, batch: seq<byte>, part: seq<byte>, rest: seq<byte>)
    requires part < batch
    ensures x + part < x + batch + rest
  {
    assert (x + batch + rest)[..|x| + |part|] == x + part;
  }

  /** One frame, and then as many more as happen to be ready while the batch is under the cap. */
  method Coalesce(queue: seq<seq<byte>>, start: nat) returns (batch: seq<byte>, end: nat)
    requires start < |queue|
    ensures start < end <= |queue|
    ensures Flatten(queue[..end]) == Flatten(queue[..start]) + batch
    ensures end > start + 1 ==> |batch| < 16384 + |queue[end - 1]|
  {
    batch, end := queue[start], start + 1;
    FlattenTake(queue, start);
    var ready: bool := *;
    while end < |queue| && |batch| < COALESCE_CAP && ready
      invariant start < end <= |queue|
      invariant Flatten(queue[..end]) == Flatten(queue[..start]) + batch
      invariant end > start + 1 ==> |batch| < 16384 + |queue[end - 1]|
      decreases |queue| - end
    {
      FlattenTake(queue, end);
      AppendAssociates(Flatten(queue[..start]), batch, queue[end]);
      batch, end := batch + queue[end], end + 1;
      ready := *;
    }
  }

  lemma FlattenTake(queue: seq<seq<byte>>, i: nat)
    requires i < |queue|
    ensures Flatten(queue[..i + 1]) == Flatten(queue[..i]) + queue[i]
  {
    assert queue[..i + 1] == queue[..i] + [queue[i]];
    FlattenSnoc(queue[..i], queue[i]);
  }

  /** The chunks recv_data yields from a closed input until the first error ends the pump. */
  function RecvAll(a: Aead, master: seq<byte>, d: Direction, s: Reader): seq<seq<byte>>
    decreases |s.input|
  {
    var (s', r) := Recv(a, master, d, s);
    if r.Err? then [] else [r.value] + RecvAll(a, master, d, s')
  }

  /** The demux pump: receive, parse, route, until the reader fails. */
  method DemuxLoop(reader: CryptoReader, pump: DemuxPump, flows: FlowTable)
    modifies reader`nonce, reader`input, pump
    ensures var chunks := RecvAll(reader.aead, reader.master, reader.Dir(), old(reader.State()));
      var (frames, rest) := DemuxChunks(old(pump.acc), chunks);
      && pump.delivered == old(pump.delivered) + Delivered(flows, old(pump.routed), frames)
      && pump.routed == old(pump.routed) + |frames| && pump.acc == rest
  {
    hide Demux, ParseMuxFrame, Recv, Delivered;
    ghost var chunks := RecvAll(reader.aead, reader.master, reader.Dir(), reader.State());
    ghost var frames, rest := DemuxChunks(pump.acc, chunks).0, DemuxChunks(pump.acc, chunks).1;
    ghost var from, done: seq<(u32, seq<byte>)> := pump.routed, [];
    DeliveredNothing(flows, from);
    while true
      invariant frames == done
        + DemuxChunks(pump.acc, RecvAll(reader.aead, reader.master, reader.Dir(), reader.State())).0
      invariant rest == DemuxChunks(pump.acc, RecvAll(reader.aead, reader.master, reader.Dir(), reader.State())).1
      invariant pump.routed == from + |done|
      invariant pump.delivered == old(pump.delivered) + Delivered(flows, from, done)
      decreases |reader.input|
    {
      var r := reader.RecvData();
      if r.Err? {
        assert done + [] == done;
        return;
      }
      ghost var here := Demux(pump.acc + r.value).0;
      var _ := pump.OnChunk(r.value, flows);  // always alive, so the break on an over-long buffer is out of reach
      DeliveredAppend(flows, from, done, here);
      AppendAssociates(done, here, DemuxChunks(pump.acc,
        RecvAll(reader.aead, reader.master, reader.Dir(), reader.State())).0);
      done := done + here;
    }
  }

  lemma DeliveredNothing(flows: FlowTable, from: nat)
    ensures Delivered(flows, from, []) == []
  {
  }

  lemma {:induction false} DeliveredAppend(flows: FlowTable, from: nat, a: seq<(u32, seq<byte>)>,
                                           b: seq<(u32, seq<byte>)>)
    ensures Delivered(flows, from, a + b) == Delivered(flows, from, a) + Delivered(flows, from + |a|, b)
    decreases |b|
  {
    hide Delivered, Routed;
    if b == [] {
      assert a + b == a;
      DeliveredNothing(flows, from + |a|);
    } else {
      var m := |b| - 1;
      var f := b[m];
      DeliveredAppend(flows, from, a, b[..m]);
      assert b == b[..m] + [f];
      AppendAssociates(a, b[..m], [f]);
      DeliverOneMore(flows, from, a + b[..m], f);
      DeliverOneMore(flows, from + |a|, b[..m], f);
      AppendAssociates(Delivered(flows, from, a), Delivered(flows, from + |a|, b[..m]),
                       if Routed(flows, from + |a + b[..m]|, f) then [f] else []);
    }
  }

  function ContentList(rs: seq<Record>): seq<seq<byte>>
    requires AllData(rs)
  {
    seq(|rs|, i requires 0 <= i < |rs| => rs[i].content)
  }

  lemma {:induction false} ContentListFlattens(rs: seq<Record>)
    requires AllData(rs)
    ensures Flatten(ContentList(rs)) == Contents(rs)
  {
    if rs != [] {
      var m := |rs| - 1;
      ContentListFlattens(rs[..m]);
      assert ContentList(rs) == ContentList(rs[..m]) + [rs[m].content];
      FlattenSnoc(ContentList(rs[..m]), rs[m].content);
    }
  }

  lemma RecvAllOfNothing(a: Aead, master: seq<byte>, d: Direction, c: Cipher, n: u64)
    ensures RecvAll(a, master, d, Reader(c, n, [])) == []
  {
  }

  /** Receiving a wire image to its end yields the record contents, one chunk a record. */
  lemma {:induction false} RecvAllOfWire(a: Aead, master: seq<byte>, d: Direction, c: Cipher, n: u64, rs: seq<Record>)
    requires a.Correct() && AllFit(rs) && n + |rs| <= U64_MAX
    requires AllData(rs)
    ensures RecvAll(a, master, d, Reader(c, n, WireOf(a, ExpandKey(master, d, c), n, rs))) == ContentList(rs)
    decreases |rs|
  {
    hide Recv, Frame, Framed, Inner, Aead.Correct;
    RecvAllOfNothing(a, master, d, c, n);
    if rs == [] {
      assert Frames(a, ExpandKey(master, d, c), n, rs) == [];
    } else {
      hide WireOf, Flatten;
      var k := ExpandKey(master, d, c);
      WireCons(a, k, n, rs);
      RecvOpensFrame(a, master, d, c, n, rs[0], WireOf(a, k, n + 1, rs[1..]));
      RecvAllOfWire(a, master, d, c, n + 1, rs[1..]);
      assert ContentList(rs) == [rs[0].content] + ContentList(rs[1..]);
    }
  }

  lemma CarriedFrames(a: Aead, k: Key, n: u64, rs: seq<Record>, text: seq<byte>, written: seq<seq<byte>>, at: nat)
    requires a.Correct() && Carries(a, k, n, rs, text, written, at)
    ensures AllFit(rs) && n + |rs| <= U64_MAX && Contents(rs) == text && at <= |written|
    ensures written[at..] == Frames(a, k, n, rs)
  {
    hide Aead.Correct, Frame, Fits, Contents;
  }

  /** What is received of records that carry a text demultiplexes as the text. */
  lemma ReceivedIsDemuxed(a: Aead, master: seq<byte>, d: Direction, c: Cipher, n: u64, rs: seq<Record>,
                          text: seq<byte>, written: seq<seq<byte>>, at: nat)
    requires a.Correct() && Carries(a, ExpandKey(master, d, c), n, rs, text, written, at) && AllData(rs)
    ensures DemuxChunks([], RecvAll(a, master, d, Reader(c, n, Flatten(written[at..])))) == Demux(text)
  {
    CarriedFrames(a, ExpandKey(master, d, c), n, rs, text, written, at);
    NothingToParse();
    hide *;
    RecvAllOfWire(a, master, d, c, n, rs);
    ContentListFlattens(rs);
    ChunkingIsInvisible([], ContentList(rs));
    assert [] + text == text;
  }

  lemma NothingToParse()
    ensures ParseMuxFrame([]).None?
  {
  }

  /**
   End to end: datagrams framed, coalesced into any batches and sent under any draws, then received
   record by record and demultiplexed, are the original flows and payloads with nothing left over.
   */
  lemma TunnelIsTransparent(a: Aead, master: seq<byte>, d: Direction, c: Cipher, n: u64, rs: seq<Record>,
                            written: seq<seq<byte>>, at: nat, ds: seq<Datagram>)
    requires a.Correct() && Framable(ds)
    requires Carries(a, ExpandKey(master, d, c), n, rs, Flatten(MuxFrames(ds)), written, at)
    requires AllData(rs)
    ensures DemuxChunks([], RecvAll(a, master, d, Reader(c, n, Flatten(written[at..])))) == (Payloads(ds), [])
  {
    hide *;
    ReceivedIsDemuxed(a, master, d, c, n, rs, Flatten(MuxFrames(ds)), written, at);
    DemuxInvertsFrames(ds);
  }

  // ---- A pump that failed ----------------------------------------------------------------------

  lemma PartOfFrame(d: Datagram, f: seq<byte>, text: seq<byte>)
    requires FrameMux(d) == Some(f) && text < f
    ensures ParseMuxFrame(text).None?
  {
    if ParseMuxFrame(text).Some? {
      var rest := f[|text|..];
      assert text + rest == f + [] == f;
      MoreBytesDoNotChangeAFrame(text, rest);
      ParseInvertsFrame(d, f, []);
    }
  }

  /** Bytes cut off anywhere demultiplex to the datagrams whose frames are whole; the rest is part of the next. */
  lemma {:induction false} CutIsWholeDatagrams(ds: seq<Datagram>, text: seq<byte>) returns (k: nat, rest: seq<byte>)
    requires Framable(ds) && text <= Flatten(MuxFrames(ds))
    ensures k <= |ds| && text == Flatten(MuxFrames(ds[..k])) + rest
    ensures Demux(text) == (Payloads(ds[..k]), rest)
    ensures if k == |ds| then rest == [] else rest < FrameMux(ds[k]).value
    decreases |ds|
  {
    hide ParseMuxFrame, FrameMux, Demux, MuxFrames, Payloads, Flatten;
    NoDatagrams();
    assert ds[..0] == [];
    if ds == [] {
      k, rest := 0, [];
    } else {
      var f, more := FrameMux(ds[0]).value, Flatten(MuxFrames(ds[1..]));
      MuxFramesCons(ds);
      if |text| < |f| {
        k, rest := 0, text;
        PrefixSplits(text, f, more);
        PartOfFrame(ds[0], f, text);
        NoFrame(text);
      } else {
        var t := text[|f|..];
        PrefixSplits(text, f, more);
        k, rest := CutIsWholeDatagrams(ds[1..], t);
        DemuxFirst(ds[0], f, t);
        MuxFramesCons(ds[..k + 1]);
        assert ds[..k + 1][1..] == ds[1..][..k];
        AppendAssociates(f, Flatten(MuxFrames(ds[1..][..k])), rest);
        k := k + 1;
      }
    }
  }

  lemma NoDatagrams()
    ensures Framable([]) && MuxFrames([]) == [] && Flatten(MuxFrames([])) == [] && Payloads([]) == []
    ensures Demux([]) == ([], [])
    ensures forall text: seq<byte> :: [] + text == text
  {
  }

  lemma PrefixSplits(text: seq<byte>, f: seq<byte>, more: seq<byte>)
    requires text <= f + more
    ensures |text| < |f| ==> text < f
    ensures |text| >= |f| ==> text == f + text[|f|..] && text[|f|..] <= more
  {
    assert text == (f + more)[..|text|];
  }

  lemma DemuxFirst(d: Datagram, f: seq<byte>, rest: seq<byte>)
    requires FrameMux(d) == Some(f)
    ensures Demux(f + rest) == ([(d.sid, d.payload)] + Demux(rest).0, Demux(rest).1)
  {
    ParseInvertsFrame(d, f, rest);
    hide ParseMuxFrame, FrameMux;
    assert (f + rest)[|f|..] == rest;
  }

  /**
   End to end after a failed send: whatever prefix of the frames the records carry, the receiver gets the
   datagrams whose frames are whole, in order, and holds the cut frame back.
   */
  lemma CutTunnelDeliversPrefix(a: Aead, master: seq<byte>, d: Direction, c: Cipher, n: u64, rs: seq<Record>,
                                written: seq<seq<byte>>, at: nat, ds: seq<Datagram>, text: seq<byte>)
    returns (k: nat, rest: seq<byte>)
    requires a.Correct() && Framable(ds) && text <= Flatten(MuxFrames(ds)) && AllData(rs)
    requires Carries(a, ExpandKey(master, d, c), n, rs, text, written, at)
    ensures k <= |ds| && text == Flatten(MuxFrames(ds[..k])) + rest
    ensures if k == |ds| then rest == [] else rest < FrameMux(ds[k]).value
    ensures DemuxChunks([], RecvAll(a, master, d, Reader(c, n, Flatten(written[at..])))) == (Payloads(ds[..k]), rest)
  {
    k, rest := CutIsWholeDatagrams(ds, text);
    ReceivedIsDemuxed(a, master, d, c, n, rs, text, written, at);
  }
}
