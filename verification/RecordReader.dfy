/**
 The receiving half of the record layer, and what writer and reader do to each other over whole runs:
 contents come back exactly, nonces are never reused, and a rekey at the same position stays in step.
 */
module RecordReader {
  import opened Prelude
  import opened Bytes
  import opened RecordLayer

  datatype RecvError =
    | UnexpectedEof | BadMagic | Oversize | NonceExhausted | OpenFailed
    | EmptyPlaintext | PaddingOnly | PeerClosed | UnknownType(t: byte)

  /** What a reader holds: its cipher, its nonce and the bytes not yet read. */
  datatype Reader = Reader(cipher: Cipher, nonce: u64, input: seq<byte>)

  // ---- Stripping -------------------------------------------------------------------------------

  /** The length of pt without its trailing zeros. */
  function Stripped(pt: seq<byte>): (end: nat)
    ensures end <= |pt|
    ensures end > 0 ==> pt[end - 1] != 0
    ensures forall i :: end <= i < |pt| ==> pt[i] == 0
  {
    if pt == [] then 0
    else if pt[|pt| - 1] == 0 then Stripped(pt[..|pt| - 1])
    else |pt|
  }

  lemma StrippedIsUnique(pt: seq<byte>, end: nat)
    requires 0 < end <= |pt| && pt[end - 1] != 0
    requires forall i :: end <= i < |pt| ==> pt[i] == 0
    ensures Stripped(pt) == end
  {
    var found := Stripped(pt);
    assert pt[end - 1] != 0 ==> found >= end;
  }

  function ProcessedPlaintext(pt: seq<byte>): Result<nat, RecvError> {
    if pt == [] then Err(EmptyPlaintext) else
      var end := Stripped(pt);
      if end == 0 then Err(PaddingOnly)
      else if pt[end - 1] == APPLICATION_DATA then Ok(end - 1)
      else if pt[end - 1] == ALERT then Err(PeerClosed)
      else Err(UnknownType(pt[end - 1]))
  }

  method ProcessPlaintext(pt: seq<byte>) returns (r: Result<nat, RecvError>)
    ensures r == ProcessedPlaintext(pt)
  {
    if |pt| == 0 {
      return Err(EmptyPlaintext);
    }
    var end := |pt|;
    while end > 0 && pt[end - 1] == 0
      invariant 0 <= end <= |pt|
      invariant forall i :: end <= i < |pt| ==> pt[i] == 0
    {
      end := end - 1;
    }
    if end == 0 {
      return Err(PaddingOnly);
    }
    StrippedIsUnique(pt, end);
    if pt[end - 1] == APPLICATION_DATA {
      r := Ok(end - 1);
    } else if pt[end - 1] == ALERT {
      r := Err(PeerClosed);
    } else {
      r := Err(UnknownType(pt[end - 1]));
    }
  }

  /** Padding comes off and the content's own trailing zeros stay. */
  lemma PaddingComesOff(r: Record)
    ensures ProcessedPlaintext(Inner(r)) == if r.Data? then Ok(|r.content|) else Err(PeerClosed)
  {
    StrippedIsUnique(Inner(r), if r.Data? then |r.content| + 1 else 3);
  }

  // ---- Receiving -------------------------------------------------------------------------------

  /** One recv_data on a closed input: everything that will ever arrive is already there. */
  function Recv(a: Aead, master: seq<byte>, d: Direction, s: Reader): (r: (Reader, Result<seq<byte>, RecvError>))
    ensures r.1.Ok? ==> |r.0.input| < |s.input|
  {
    if |s.input| < 5 then (s.(input := []), Err(UnexpectedEof)) else
      var body := s.input[5..];
      var len := U16At(s.input, 3);
      if s.input[0] != 0x17 || s.input[1] != 0x03 || s.input[2] != 0x03 then (s.(input := body), Err(BadMagic))
      else if len > MAX_SEALED then (s.(input := body), Err(Oversize))
      else if len > |body| then (s.(input := []), Err(UnexpectedEof))
      else if s.nonce == U64_MAX then (s.(input := body[len..]), Err(NonceExhausted))
      else
        var next := Reader(s.cipher, s.nonce + 1, body[len..]);
        match a.open(ExpandKey(master, d, s.cipher), s.nonce, body[..len])
        case None => (next, Err(OpenFailed))
        case Some(pt) =>
          match ProcessedPlaintext(pt)
          case Err(e) => (next, Err(e))
          case Ok(n) => (next, Ok(pt[..n]))
  }

  /**
   The input begins with a record that the other side has sealed: the server for a reader that initiated the
   session, the client for one that did not, under the same cipher and nonce.
   */
  ghost predicate SealedForMe(a: Aead, master: seq<byte>, isInitiator: bool, s: Reader, record: Record,
                              rest: seq<byte>)
  {
    && a.Correct() && Fits(record) && s.nonce < U64_MAX
    && var info := (if isInitiator then "s2c" else "c2s") + if s.cipher.Aes256Gcm? then "-aes256gcm" else "";
      s.input == Frame(a, Key(master, info, s.cipher), s.nonce, record) + rest
  }

  /** From s the call returned r and left s', as it must for every record sealed for this side. */
  ghost predicate OpensSealed(a: Aead, master: seq<byte>, isInitiator: bool, s: Reader, s': Reader,
                              r: Result<seq<byte>, RecvError>)
  {
    forall record: Record, rest :: SealedForMe(a, master, isInitiator, s, record, rest) ==>
      r == Expected(record) && s' == Reader(s.cipher, s.nonce + 1, rest)
  }

  lemma RecvOpensSealed(a: Aead, master: seq<byte>, isInitiator: bool, d: Direction, s: Reader)
    requires d == if isInitiator then ServerToClient else ClientToServer
    ensures var (s', r) := Recv(a, master, d, s); OpensSealed(a, master, isInitiator, s, s', r)
  {
    forall record: Record, rest | SealedForMe(a, master, isInitiator, s, record, rest)
      ensures Recv(a, master, d, s) == (Reader(s.cipher, s.nonce + 1, rest), Expected(record))
    {
      InfosSpelled();
      RecvOpensFrame(a, master, d, s.cipher, s.nonce, record, rest);
    }
  }

  class CryptoReader {
    const aead: Aead
    const master: seq<byte>
    const isInitiator: bool
    var cipherKind: Cipher
    var nonce: u64
    var input: seq<byte>

    function Dir(): Direction {
      if isInitiator then ServerToClient else ClientToServer
    }

    ghost function State(): Reader
      reads this
    {
      Reader(cipherKind, nonce, input)
    }

    constructor (aead: Aead, master: seq<byte>, isInitiator: bool, input: seq<byte>)
      ensures this.aead == aead && this.master == master && this.isInitiator == isInitiator
      ensures State() == Reader(ChaCha20Poly1305, 0, input)
    {
      this.aead, this.master, this.isInitiator := aead, master, isInitiator;
      cipherKind, nonce, this.input := ChaCha20Poly1305, 0, input;
    }

    /** As the writer's: a refused call changes nothing. */
    method Rekey(cipher: Cipher)
      modifies this`cipherKind, this`nonce
      ensures State() == Rekeyed(old(State()), cipher)
      ensures var refused := cipher == old(cipherKind) || cipher == ChaCha20Poly1305;
        && cipherKind == (if refused then old(cipherKind) else cipher)
        && nonce == (if refused then old(nonce) else 0)
    {
      if cipher == cipherKind || cipher == ChaCha20Poly1305 {
        return;
      }
      cipherKind, nonce := cipher, 0;
    }

    method RecvData() returns (r: Result<seq<byte>, RecvError>)
      modifies this`nonce, this`input
      ensures (State(), r) == Recv(aead, master, Dir(), old(State()))
      ensures OpensSealed(aead, master, isInitiator, old(State()), State(), r)
    {
      RecvOpensSealed(aead, master, isInitiator, Dir(), State());
      hide OpensSealed, ExpandKey;
      if |input| < 5 {
        input := [];
        return Err(UnexpectedEof);
      }
      var header := input[..5];
      input := input[5..];
      if header[0] != 0x17 || header[1] != 0x03 || header[2] != 0x03 {
        return Err(BadMagic);
      }
      var len := U16At(header, 3);
      if len > MAX_SEALED {
        return Err(Oversize);
      }
      if len > |input| {
        input := [];
        return Err(UnexpectedEof);
      }
      var scratch := input[..len];
      input := input[len..];
      if nonce == U64_MAX {
        return Err(NonceExhausted);
      }
      var plain := aead.open(ExpandKey(master, Dir(), cipherKind), nonce, scratch);
      nonce := nonce + 1;
      if plain.None? {
        return Err(OpenFailed);
      }
      var n := ProcessPlaintext(plain.value);
      match n
      case Err(e) => r := Err(e);
      case Ok(contentLen) => r := Ok(plain.value[..contentLen]);
    }
  }

  /**
   What is refused before any opening, in this order: less than a header, a header that is not 17 03 03, more
   than 16401 bytes announced, less than what is announced, and a nonce that has run out.
   */
  lemma RecvRefuses(a: Aead, master: seq<byte>, d: Direction, s: Reader)
    ensures var (s', r) := Recv(a, master, d, s); var i := s.input;
      && (|i| < 5 ==> r == Err(UnexpectedEof) && s' == s.(input := []))
      && (|i| >= 5 && i[..3] != [0x17, 0x03, 0x03] ==> r == Err(BadMagic) && s' == s.(input := i[5..]))
      && (|i| >= 5 && i[..3] == [0x17, 0x03, 0x03] ==>
            var len := 256 * i[3] as int + i[4] as int;
            && (len > 16401 ==> r == Err(Oversize) && s' == s.(input := i[5..]))
            && (|i| < 5 + len <= 16406 ==> r == Err(UnexpectedEof) && s' == s.(input := []))
            && (5 + len <= |i| && len <= 16401 ==>
                  if s.nonce == U64_MAX then r == Err(NonceExhausted) && s' == s.(input := i[5 + len..])
                  else s' == Reader(s.cipher, s.nonce + 1, i[5 + len..])))
  {
    var i := s.input;
    if |i| >= 5 {
      assert i[..3] == [i[0], i[1], i[2]];
      var len := U16At(i, 3);
      if len <= |i[5..]| {
        assert i[5..][len..] == i[5 + len..];
      }
    }
  }

  /** What an opened text without a usable content type is refused as. */
  lemma PlaintextRefused(content: seq<byte>, t: byte, pad: nat)
    ensures ProcessedPlaintext([]) == Err(EmptyPlaintext)
    ensures pad > 0 ==> ProcessedPlaintext(Zeros(pad)) == Err(PaddingOnly)
    ensures var r := ProcessedPlaintext(content + [t] + Zeros(pad));
      t != 0 ==> r == if t == 0x17 then Ok(|content|) else if t == 0x15 then Err(PeerClosed) else Err(UnknownType(t))
  {
    var pt := content + [t] + Zeros(pad);
    if t != 0 {
      StrippedIsUnique(pt, |content| + 1);
    }
  }

  function Rekeyed(s: Reader, c: Cipher): Reader {
    if c == s.cipher || c == ChaCha20Poly1305 then s else Reader(c, 0, s.input)
  }

  function Expected(r: Record): Result<seq<byte>, RecvError> {
    if r.Data? then Ok(r.content) else Err(PeerClosed)
  }

  /** A frame header and body split off the front of the input. */
  lemma FrameSplits(sealed: seq<byte>, rest: seq<byte>)
    requires |sealed| <= MAX_SEALED
    ensures var input := Framed(sealed) + rest;
      && |input| >= 5 && input[0] == 0x17 && input[1] == 0x03 && input[2] == 0x03
      && U16At(input, 3) == |sealed| <= |input[5..]|
      && input[5..][..|sealed|] == sealed && input[5..][|sealed|..] == rest
  {
    var input := Framed(sealed) + rest;
    assert input[3..5] == U16Bytes(|sealed|);
    assert input[5..] == sealed + rest;
  }

  /** A reader at the writer's cipher and nonce gets the content of the next frame. */
  lemma RecvOpensFrame(a: Aead, master: seq<byte>, d: Direction, c: Cipher, n: u64, r: Record, rest: seq<byte>)
    requires a.Correct() && Fits(r) && n < U64_MAX
    ensures Recv(a, master, d, Reader(c, n, Frame(a, ExpandKey(master, d, c), n, r) + rest))
         == (Reader(c, n + 1, rest), Expected(r))
  {
    FrameSplits(a.seal(ExpandKey(master, d, c), n, Inner(r)), rest);
    PaddingComesOff(r);
    if r.Data? {
      assert Inner(r)[..|r.content|] == r.content;
    }
  }

  /** Client and server read what the other has written: at the same cipher and nonce the next record is its content. */
  lemma PeersReadEachOther(w: CryptoWriter, r: CryptoReader, record: Record, rest: seq<byte>)
    requires w.Valid() && Fits(record) && w.nonce < U64_MAX
    requires w.aead == r.aead && w.master == r.master && w.isInitiator != r.isInitiator
    requires w.cipherKind == r.cipherKind && w.nonce == r.nonce
    requires r.input == Frame(w.aead, w.CurrentKey(), w.nonce, record) + rest
    ensures Recv(r.aead, r.master, r.Dir(), r.State()) == (Reader(r.cipherKind, r.nonce + 1, rest), Expected(record))
    ensures SealedForMe(r.aead, r.master, r.isInitiator, r.State(), record, rest)
  {
    InfosSpelled();
    RecvOpensFrame(r.aead, r.master, r.Dir(), r.cipherKind, r.nonce, record, rest);
  }

  /** Out of step in direction, cipher or nonce, nothing opens: the stream fails closed. */
  lemma RecvOutOfStepFails(a: Aead, master: seq<byte>, d: Direction, c: Cipher, n: u64, r: Record, rest: seq<byte>,
                           d': Direction, c': Cipher, n': u64)
    requires a.Ideal() && Fits(r) && n' < U64_MAX && (d, c, n) != (d', c', n')
    ensures Recv(a, master, d', Reader(c', n', Frame(a, ExpandKey(master, d, c), n, r) + rest))
         == (Reader(c', n' + 1, rest), Err(OpenFailed))
  {
    FrameSplits(a.seal(ExpandKey(master, d, c), n, Inner(r)), rest);
  }

  // ---- Whole runs ------------------------------------------------------------------------------

  ghost predicate NoReuse(w: Writer) {
    && (forall i, j :: 0 <= i < j < |w.seals| ==> w.seals[i] != w.seals[j])
    && (forall i :: 0 <= i < |w.seals| && w.seals[i].0 == w.cipher ==> w.seals[i].1 < w.nonce)
    && (w.cipher == ChaCha20Poly1305 ==> forall i :: 0 <= i < |w.seals| ==> w.seals[i].0 == ChaCha20Poly1305)
  }

  /** Over any run, no (cipher, nonce) pair seals twice. */
  lemma {:induction false} NonceNeverReused(ops: seq<Op>)
    ensures NoReuse(WriterAfter(ops))
  {
    if ops != [] {
      NonceNeverReused(ops[..|ops| - 1]);
    }
  }

  /** Nor do the two directions of a session ever share a key. */
  lemma DirectionsNeverCollide(master: seq<byte>, client: seq<Op>, server: seq<Op>, i: nat, j: nat)
    requires i < |WriterAfter(client).seals| && j < |WriterAfter(server).seals|
    ensures ExpandKey(master, ClientToServer, WriterAfter(client).seals[i].0)
         != ExpandKey(master, ServerToClient, WriterAfter(server).seals[j].0)
  {
    InfosAreDistinct(ClientToServer, WriterAfter(client).seals[i].0, ServerToClient, WriterAfter(server).seals[j].0);
  }

  predicate RekeysAt(ops: seq<Op>, i: nat)
    requires i < |ops|
  {
    ops[i].Rekey? && WriterStep(WriterAfter(ops[..i]), ops[i]) != WriterAfter(ops[..i])
  }

  lemma {:induction false} CipherLeavesBootstrapOnce(ops: seq<Op>, i: nat, j: nat)
    requires i < j <= |ops| && RekeysAt(ops, i)
    ensures WriterAfter(ops[..j]).cipher == Aes256Gcm
  {
    assert ops[..j][..j - 1] == ops[..j - 1];
    if i < j - 1 {
      CipherLeavesBootstrapOnce(ops, i, j - 1);
    }
  }

  /** At most one rekey of a run takes effect. */
  lemma AtMostOneRekey(ops: seq<Op>, i: nat, j: nat)
    requires i < j < |ops| && RekeysAt(ops, i)
    ensures !RekeysAt(ops, j)
  {
    CipherLeavesBootstrapOnce(ops, i, j);
  }

  ghost predicate OpsFit(ops: seq<Op>) {
    forall i :: 0 <= i < |ops| && ops[i].Emit? ==> Fits(ops[i].r)
  }

  /** The bytes a writer in state w puts on the wire for ops, in front of what comes later. */
  function Emitted(a: Aead, master: seq<byte>, d: Direction, w: Writer, ops: seq<Op>, rest: seq<byte>): seq<byte>
    requires a.Correct() && OpsFit(ops)
    decreases |ops|
  {
    if ops == [] then rest else
      var later := Emitted(a, master, d, WriterStep(w, ops[0]), ops[1..], rest);
      if ops[0].Emit? && w.nonce < U64_MAX
      then Frame(a, ExpandKey(master, d, w.cipher), w.nonce, ops[0].r) + later
      else later
  }

  /** A reader that follows the same script: one recv per record, a rekey where the writer has one. */
  function Follow(a: Aead, master: seq<byte>, d: Direction, s: Reader, ops: seq<Op>)
    : (Reader, seq<Result<seq<byte>, RecvError>>)
    decreases |ops|
  {
    if ops == [] then (s, []) else
      match ops[0]
      case Rekey(c) => Follow(a, master, d, Rekeyed(s, c), ops[1..])
      case Emit(_) =>
        var (s', got) := Recv(a, master, d, s);
        var (s'', more) := Follow(a, master, d, s', ops[1..]);
        (s'', [got] + more)
  }

  function Script(ops: seq<Op>): seq<Result<seq<byte>, RecvError>>
    decreases |ops|
  {
    if ops == [] then []
    else if ops[0].Emit? then [Expected(ops[0].r)] + Script(ops[1..])
    else Script(ops[1..])
  }

  function FollowedWriter(w: Writer, ops: seq<Op>): Writer
    decreases |ops|
  {
    if ops == [] then w else FollowedWriter(WriterStep(w, ops[0]), ops[1..])
  }

  /**
   A reader rekeyed at the writer's stream positions opens every record in order, and ends at the
   writer's cipher and nonce with exactly the later bytes left.
   */
  lemma {:induction false} ReaderFollowsWriter(a: Aead, master: seq<byte>, d: Direction, w: Writer, ops: seq<Op>,
                                               rest: seq<byte>)
    requires a.Correct() && OpsFit(ops) && w.nonce + |ops| <= U64_MAX
    ensures var w' := FollowedWriter(w, ops);
      Follow(a, master, d, Reader(w.cipher, w.nonce, Emitted(a, master, d, w, ops, rest)), ops)
      == (Reader(w'.cipher, w'.nonce, rest), Script(ops))
    decreases |ops|
  {
    hide Recv, Frame, ExpandKey, Expected, Inner;
    if ops != [] {
      var next := WriterStep(w, ops[0]);
      ReaderFollowsWriter(a, master, d, next, ops[1..], rest);
      if ops[0].Emit? {
        var later := Emitted(a, master, d, next, ops[1..], rest);
        RecvOpensFrame(a, master, d, w.cipher, w.nonce, ops[0].r, later);
      }
    }
  }
}
