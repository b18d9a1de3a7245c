/**
 The encrypted record layer: a writer that cuts plaintext into records of drawn sizes with zero padding
 and seals each under a counter nonce, and the reader that opens and strips them.
 */
module RecordLayer {
  import opened Prelude
  import opened Bytes

  const TAG_SIZE := 16
  const MAX_RECORD_SIZE := 16384
  const MAX_SEALED := MAX_RECORD_SIZE + 1 + TAG_SIZE
  const WRITER_BUF_CAPACITY := 68 * 1024

  // ---- Keys and the ideal cipher ---------------------------------------------------------------

  datatype Cipher = ChaCha20Poly1305 | Aes256Gcm

  datatype Direction = ClientToServer | ServerToClient

  function HkdfSuffix(c: Cipher): string {
    match c
    case ChaCha20Poly1305 => ""
    case Aes256Gcm => "-aes256gcm"
  }

  function HkdfInfo(d: Direction, c: Cipher): string {
    (match d case ClientToServer => "c2s" case ServerToClient => "s2c") + HkdfSuffix(c)
  }

  /** A derived key: HKDF is taken to keep different inputs apart. */
  datatype Key = Key(master: seq<byte>, info: string, cipher: Cipher)

  function ExpandKey(master: seq<byte>, d: Direction, c: Cipher): Key {
    Key(master, HkdfInfo(d, c), c)
  }

  /** An AEAD with empty associated data, as two arbitrary functions of key, nonce counter and text. */
  datatype Aead = Aead(seal: (Key, u64, seq<byte>) -> seq<byte>, open: (Key, u64, seq<byte>) -> Option<seq<byte>>) {

    /** Opening under the sealing key and nonce gives the text back; the tag is 16 bytes. */
    ghost predicate Correct() {
      forall k, n, p :: |seal(k, n, p)| == |p| + TAG_SIZE && open(k, n, seal(k, n, p)) == Some(p)
    }

    /** Nothing opens under another direction, cipher or nonce of the same session. */
    ghost predicate Ideal() {
      && Correct()
      && forall master, d, c, n, d', c', n', p :: (d, c, n) != (d', c', n') ==>
           open(ExpandKey(master, d', c'), n', seal(ExpandKey(master, d, c), n, p)).None?
    }
  }

  /** The four infos are different strings, so directions and ciphers never share a key. */
  lemma InfosAreDistinct(d: Direction, c: Cipher, d': Direction, c': Cipher)
    ensures HkdfInfo(d, c) == HkdfInfo(d', c') <==> d == d' && c == c'
  {
    assert HkdfInfo(d, c)[0] == (if d.ClientToServer? then 'c' else 's');
    assert HkdfInfo(d', c')[0] == (if d'.ClientToServer? then 'c' else 's');
    assert |HkdfInfo(d, c)| == (if c.ChaCha20Poly1305? then 3 else 13);
    assert |HkdfInfo(d', c')| == (if c'.ChaCha20Poly1305? then 3 else 13);
  }

  /** The infos, spelled out. */
  lemma InfosSpelled()
    ensures HkdfInfo(ClientToServer, ChaCha20Poly1305) == "c2s"
    ensures HkdfInfo(ClientToServer, Aes256Gcm) == "c2s-aes256gcm"
    ensures HkdfInfo(ServerToClient, ChaCha20Poly1305) == "s2c"
    ensures HkdfInfo(ServerToClient, Aes256Gcm) == "s2c-aes256gcm"
  {
  }

  function IndexTag(k: Key, n: u64): (t: seq<byte>)
    ensures |t| == TAG_SIZE
  {
    [if k.info != [] && k.info[0] == 'c' then 1 else 0, if |k.info| == 3 then 1 else 0] + U64Bytes(n) + Zeros(6)
  }

  lemma IndexTagsDiffer(master: seq<byte>, d: Direction, c: Cipher, n: u64, d': Direction, c': Cipher, n': u64)
    requires IndexTag(ExpandKey(master, d, c), n) == IndexTag(ExpandKey(master, d', c'), n')
    ensures (d, c, n) == (d', c', n')
  {
    var t, t' := IndexTag(ExpandKey(master, d, c), n), IndexTag(ExpandKey(master, d', c'), n');
    assert t[0] == (if d.ClientToServer? then 1 else 0) && t[1] == (if c.ChaCha20Poly1305? then 1 else 0);
    assert t'[0] == (if d'.ClientToServer? then 1 else 0) && t'[1] == (if c'.ChaCha20Poly1305? then 1 else 0);
    assert t[2..10] == U64Bytes(n) && t'[2..10] == U64Bytes(n');
    U64RoundTrip(n, []);
    U64RoundTrip(n', []);
    assert U64Bytes(n) + [] == U64Bytes(n) && U64Bytes(n') + [] == U64Bytes(n');
  }

  /** The ideal laws are satisfiable: a text with its index as the tag obeys them. */
  lemma IdealAeadExists() returns (a: Aead)
    ensures a.Ideal()
  {
    a := Aead((k: Key, n: u64, p: seq<byte>) => p + IndexTag(k, n),
              (k: Key, n: u64, s: seq<byte>) =>
                if |s| >= 16 && s[|s| - 16..] == IndexTag(k, n) then Some(s[..|s| - 16]) else None);
    forall k, n, p
      ensures |a.seal(k, n, p)| == |p| + TAG_SIZE && a.open(k, n, a.seal(k, n, p)) == Some(p)
    {
      var s := p + IndexTag(k, n);
      assert s[|s| - 16..] == IndexTag(k, n) && s[..|s| - 16] == p;
    }
    forall master, d, c, n, d', c', n', p | (d, c, n) != (d', c', n')
      ensures a.open(ExpandKey(master, d', c'), n', a.seal(ExpandKey(master, d, c), n, p)).None?
    {
      var s := p + IndexTag(ExpandKey(master, d, c), n);
      assert s[|s| - 16..] == IndexTag(ExpandKey(master, d, c), n);
      if IndexTag(ExpandKey(master, d, c), n) == IndexTag(ExpandKey(master, d', c'), n') {
        IndexTagsDiffer(master, d, c, n, d', c', n');
      }
    }
  }

  // ---- Records ---------------------------------------------------------------------------------

  const APPLICATION_DATA: byte := 0x17
  const ALERT: byte := 0x15

  /** What one record carries. */
  datatype Record = Data(content: seq<byte>, pad: nat) | CloseNotify

  /** The plaintext that is sealed: content, inner content type, zero padding. */
  function Inner(r: Record): seq<byte> {
    match r
    case Data(content, pad) => content + [APPLICATION_DATA] + Zeros(pad)
    case CloseNotify => [1, 0, ALERT]
  }

  /** What is sealed, and what stands on the wire: the content type behind the content, and a header in front. */
  lemma RecordSpelled(a: Aead, k: Key, n: u64, content: seq<byte>, pad: nat)
    requires a.Correct() && |content| + 1 + pad <= 16385
    ensures Inner(CloseNotify) == [1, 0, 0x15] && Inner(Data(content, pad)) == content + [0x17] + Zeros(pad)
    ensures Fits(Data(content, pad)) && Fits(CloseNotify)
    ensures var sealed := a.seal(k, n, content + [0x17] + Zeros(pad));
      && |sealed| == |content| + 1 + pad + 16
      && Frame(a, k, n, Data(content, pad)) == [0x17, 0x03, 0x03] + U16Bytes(|sealed|) + sealed
    ensures var sealed := a.seal(k, n, [1, 0, 0x15]);
      |sealed| == 19 && Frame(a, k, n, CloseNotify) == [0x17, 0x03, 0x03] + U16Bytes(19) + sealed
  {
  }

  predicate Fits(r: Record) {
    |Inner(r)| <= MAX_RECORD_SIZE + 1
  }

  function Framed(sealed: seq<byte>): seq<byte>
    requires |sealed| <= U16_MAX
  {
    [0x17, 0x03, 0x03] + U16Bytes(|sealed|) + sealed
  }

  ghost predicate AllFit(rs: seq<Record>) {
    forall i :: 0 <= i < |rs| ==> Fits(rs[i])
  }

  function Frame(a: Aead, k: Key, n: u64, r: Record): seq<byte>
    requires a.Correct() && Fits(r)
  {
    Framed(a.seal(k, n, Inner(r)))
  }

  /** The frames of a list of records sealed under consecutive nonces from n. */
  function Frames(a: Aead, k: Key, n: u64, rs: seq<Record>): (fs: seq<seq<byte>>)
    requires a.Correct() && AllFit(rs) && n + |rs| <= U64_MAX
    ensures |fs| == |rs|
  {
    seq(|rs|, i requires 0 <= i < |rs| => Frame(a, k, n + i, rs[i]))
  }

  function WireOf(a: Aead, k: Key, n: u64, rs: seq<Record>): seq<byte>
    requires a.Correct() && AllFit(rs) && n + |rs| <= U64_MAX
  {
    Flatten(Frames(a, k, n, rs))
  }

  lemma WireCons(a: Aead, k: Key, n: u64, rs: seq<Record>)
    requires a.Correct() && AllFit(rs) && rs != [] && n + |rs| <= U64_MAX
    ensures WireOf(a, k, n, rs) == Frame(a, k, n, rs[0]) + WireOf(a, k, n + 1, rs[1..])
  {
    assert Frames(a, k, n, rs)[1..] == Frames(a, k, n + 1, rs[1..]);
  }

  function Contents(rs: seq<Record>): seq<byte> {
    if rs == [] then [] else
      Contents(rs[..|rs| - 1]) + (if rs[|rs| - 1].Data? then rs[|rs| - 1].content else [])
  }

  // ---- Keying ----------------------------------------------------------------------------------

  /** What an owner does with its writer, one sealed record or one rekey at a time. */
  datatype Op = Emit(r: Record) | Rekey(c: Cipher)

  /** A writer's keying state, and every (cipher, nonce) it has sealed under. */
  datatype Writer = Writer(cipher: Cipher, nonce: u64, seals: seq<(Cipher, u64)>)

  const FRESH_WRITER := Writer(ChaCha20Poly1305, 0, [])

  function WriterStep(w: Writer, op: Op): Writer {
    match op
    case Emit(_) => if w.nonce == U64_MAX then w else Writer(w.cipher, w.nonce + 1, w.seals + [(w.cipher, w.nonce)])
    case Rekey(c) => if c == w.cipher || c == ChaCha20Poly1305 then w else Writer(c, 0, w.seals)
  }

  function WriterRun(w: Writer, ops: seq<Op>): Writer {
    if ops == [] then w else WriterStep(WriterRun(w, ops[..|ops| - 1]), ops[|ops| - 1])
  }

  function WriterAfter(ops: seq<Op>): Writer {
    WriterRun(FRESH_WRITER, ops)
  }

  function Emits(rs: seq<Record>): (ops: seq<Op>)
    ensures |ops| == |rs|
  {
    seq(|rs|, i requires 0 <= i < |rs| => Emit(rs[i]))
  }

  lemma EmitsNothing(w: Writer)
    ensures WriterRun(w, Emits([])) == w
  {
  }

  lemma EmitsOneMore(w: Writer, rs: seq<Record>, r: Record)
    ensures WriterRun(w, Emits(rs + [r])) == WriterStep(WriterRun(w, Emits(rs)), Emit(r))
  {
    assert Emits(rs + [r])[..|rs|] == Emits(rs);
  }

  // ---- The writer ------------------------------------------------------------------------------

  /** A padding scheme as parse_padding_scheme admits it. */
  predicate ValidScheme(scheme: seq<(nat, nat)>) {
    && |scheme| <= U32_MAX
    && forall i :: 0 <= i < |scheme| ==> 1 <= scheme[i].0 <= scheme[i].1 <= MAX_RECORD_SIZE
  }

  predicate IsBucketLimit(n: nat) {
    n == 16384 || n == 8192 || n == 4096
  }

  /**
   The shape of a record sent after `before` others. Inside the scheme its size is drawn from its slot
   alone, whatever the data; past it the size is a bucket limit. Only the last record may be padded or
   fall short, and it carries data.
   */
  ghost predicate ShapedBy(scheme: seq<(nat, nat)>, padding: bool, before: nat, r: Record, last: bool) {
    && r.Data?
    && (last ==> r.content != [])
    && (r.pad > 0 ==> last)
    && if padding && before < |scheme|
       then scheme[before].0 <= |Inner(r)| <= scheme[before].1
       else r.pad == 0 && (IsBucketLimit(|r.content|) || (last && |r.content| <= MAX_RECORD_SIZE))
  }

  ghost predicate Shaped(scheme: seq<(nat, nat)>, padding: bool, before: nat, rs: seq<Record>, complete: bool) {
    forall i :: 0 <= i < |rs| ==>
      ShapedBy(scheme, padding, Min(before + i, U32_MAX), rs[i], complete && i == |rs| - 1)
  }

  /** The records rs carry text and are the frames of written from index `at` on. */
  ghost predicate Carries(a: Aead, k: Key, n: u64, rs: seq<Record>, text: seq<byte>, written: seq<seq<byte>>, at: nat)
    requires a.Correct()
  {
    && AllFit(rs) && n + |rs| <= U64_MAX
    && |written| == at + |rs|
    && (forall i :: 0 <= i < |rs| ==> written[at + i] == Frame(a, k, n + i, rs[i]))
    && Contents(rs) == text
  }

  /** ... and moreover have the drawn shape. */
  ghost predicate Sent(a: Aead, k: Key, n: u64, scheme: seq<(nat, nat)>, padding: bool, before: u32,
                       rs: seq<Record>, text: seq<byte>, written: seq<seq<byte>>, at: nat, complete: bool)
    requires a.Correct()
  {
    && Carries(a, k, n, rs, text, written, at)
    && Shaped(scheme, padding, before, rs, complete)
  }

  /** Nothing sent yet; a text without bytes is then complete. */
  lemma SentNothing(a: Aead, k: Key, n: u64, scheme: seq<(nat, nat)>, padding: bool, before: u32,
                    written: seq<seq<byte>>, plaintext: seq<byte>)
    requires a.Correct()
    ensures Sent(a, k, n, scheme, padding, before, [], plaintext[..0], written, |written|, 0 == |plaintext|)
  {
  }

  lemma SentIsContents(a: Aead, k: Key, n: u64, scheme: seq<(nat, nat)>, padding: bool, before: u32,
                       rs: seq<Record>, text: seq<byte>, written: seq<seq<byte>>, at: nat, complete: bool)
    requires a.Correct() && Sent(a, k, n, scheme, padding, before, rs, text, written, at, complete)
    ensures Contents(rs) == text
  {
  }

  lemma SentCarries(a: Aead, k: Key, n: u64, scheme: seq<(nat, nat)>, padding: bool, before: u32,
                    rs: seq<Record>, text: seq<byte>, written: seq<seq<byte>>, at: nat, complete: bool)
    requires a.Correct() && Sent(a, k, n, scheme, padding, before, rs, text, written, at, complete)
    ensures Carries(a, k, n, rs, text, written, at)
    ensures forall i :: 0 <= i < |rs| ==> rs[i].Data?
  {
    forall i | 0 <= i < |rs|
      ensures rs[i].Data?
    {
      assert ShapedBy(scheme, padding, Min(before + i, U32_MAX), rs[i], complete && i == |rs| - 1);
    }
  }

  lemma CarriesOneMore(a: Aead, k: Key, n: u64, rs: seq<Record>, text: seq<byte>, written: seq<seq<byte>>, at: nat,
                       nonce: u64, r: Record)
    requires a.Correct() && Carries(a, k, n, rs, text, written, at)
    requires r.Data? && Fits(r) && nonce == n + |rs| < U64_MAX
    ensures Carries(a, k, n, rs + [r], text + r.content, written + [Frame(a, k, nonce, r)], at)
  {
    hide Aead.Correct, Frame, Fits;
    assert (rs + [r])[..|rs|] == rs;
  }

  lemma ShapedOneMore(scheme: seq<(nat, nat)>, padding: bool, before: u32, rs: seq<Record>, r: Record, complete: bool)
    requires Shaped(scheme, padding, before, rs, false)
    requires ShapedBy(scheme, padding, Min(before + |rs|, U32_MAX), r, complete)
    ensures Shaped(scheme, padding, before, rs + [r], complete)
  {
  }

  lemma SentOneMore(a: Aead, k: Key, n: u64, scheme: seq<(nat, nat)>, padding: bool, before: u32,
                    rs: seq<Record>, text: seq<byte>, written: seq<seq<byte>>, at: nat, nonce: u64, r: Record,
                    complete: bool)
    requires a.Correct() && Sent(a, k, n, scheme, padding, before, rs, text, written, at, false)
    requires r.Data? && Fits(r) && nonce == n + |rs| < U64_MAX
    requires ShapedBy(scheme, padding, Min(before + |rs|, U32_MAX), r, complete)
    ensures Sent(a, k, n, scheme, padding, before, rs + [r], text + r.content,
                 written + [Frame(a, k, nonce, r)], at, complete)
  {
    CarriesOneMore(a, k, n, rs, text, written, at, nonce, r);
    ShapedOneMore(scheme, padding, before, rs, r, complete);
  }

  class CryptoWriter {
    const aead: Aead
    const master: seq<byte>
    const isInitiator: bool
    const padding: bool
    const scheme: seq<(nat, nat)>
    var cipherKind: Cipher
    var nonce: u64
    var recordsSent: u32
    var written: seq<seq<byte>>  // the frames handed to the buffered transport
    ghost var seals: seq<(Cipher, u64)>  // every cipher and nonce sealed under, in order

    ghost function State(): Writer
      reads this
    {
      Writer(cipherKind, nonce, seals)
    }

    ghost predicate Valid() {
      aead.Correct() && ValidScheme(scheme)
    }

    /** The key its records are sealed under: an initiator writes to the server. */
    function CurrentKey(): (k: Key)
      reads this`cipherKind
      ensures k.master == master && k.cipher == cipherKind
      ensures isInitiator ==> k.info == if cipherKind.Aes256Gcm? then "c2s-aes256gcm" else "c2s"
      ensures !isInitiator ==> k.info == if cipherKind.Aes256Gcm? then "s2c-aes256gcm" else "s2c"
    {
      ExpandKey(master, if isInitiator then ClientToServer else ServerToClient, cipherKind)
    }

    constructor (aead: Aead, master: seq<byte>, isInitiator: bool, padding: bool, scheme: seq<(nat, nat)>)
      requires aead.Correct() && ValidScheme(scheme)
      ensures Valid() && this.aead == aead && this.master == master && this.isInitiator == isInitiator
      ensures this.padding == padding && this.scheme == scheme
      ensures cipherKind == ChaCha20Poly1305 && nonce == 0 && recordsSent == 0 && written == []
      ensures State() == FRESH_WRITER
    {
      this.aead, this.master, this.isInitiator := aead, master, isInitiator;
      this.padding, this.scheme := padding, scheme;
      cipherKind, nonce, recordsSent, written, seals := ChaCha20Poly1305, 0, 0, [], [];
    }

    /** Release behaviour: a refused call changes nothing. */
    method Rekey(cipher: Cipher)
      modifies this`cipherKind, this`nonce
      ensures State() == WriterStep(old(State()), Op.Rekey(cipher))
      ensures var refused := cipher == old(cipherKind) || cipher == ChaCha20Poly1305;
        && cipherKind == (if refused then old(cipherKind) else cipher)
        && nonce == (if refused then old(nonce) else 0)
    {
      if cipher == cipherKind || cipher == ChaCha20Poly1305 {
        return;
      }
      cipherKind, nonce := cipher, 0;
    }

    /** Seals the plaintext of a record at the current nonce and writes its frame. */
    method WriteSealed(buffer: seq<byte>, ghost r: Record) returns (ok: bool)
      requires Valid() && Fits(r) && buffer == Inner(r)
      modifies this`nonce, this`written, this`seals
      ensures State() == WriterStep(old(State()), Emit(r))
      ensures ok <==> old(nonce) < U64_MAX
      ensures ok ==> nonce == old(nonce) + 1 && written == old(written) + [Frame(aead, CurrentKey(), old(nonce), r)]
      ensures !ok ==> nonce == old(nonce) && written == old(written)
    {
      if nonce == U64_MAX {
        return false;
      }
      var sealed := aead.seal(CurrentKey(), nonce, buffer);
      var frame := [0x17, 0x03, 0x03] + U16Bytes(|sealed|) + sealed;
      assert frame == Frame(aead, CurrentKey(), nonce, r);
      seals := seals + [(cipherKind, nonce)];
      nonce := nonce + 1;
      written := written + [frame];
      ok := true;
    }

    /** Draws the next record: a scheme slot's size while slots last, otherwise one of three bucket limits. */
    method DrawRecord(plaintext: seq<byte>, start: nat) returns (buffer: seq<byte>, offset: nat, ghost r: Record)
      requires Valid() && start < |plaintext|
      ensures start <= offset <= |plaintext|
      ensures r.Data? && r.content == plaintext[start..offset] && buffer == Inner(r) && Fits(r)
      ensures ShapedBy(scheme, padding, recordsSent, r, offset == |plaintext|)
      ensures offset == start ==> padding && recordsSent < |scheme|
    {
      var remaining := |plaintext| - start;
      if padding && recordsSent < |scheme| {
        var (lo, hi) := scheme[recordsSent];
        var target: nat :| lo <= target <= hi;
        var take := Min(Max(target - 1, 0), remaining);
        offset := start + take;
        buffer := plaintext[start..offset] + [APPLICATION_DATA];
        r := Data(plaintext[start..offset], target - 1 - take);
        if |buffer| < target {
          buffer := buffer + Zeros(target - |buffer|);
        }
      } else {
        var draw: nat :| draw < 3;
        var limit := [16384, 8192, 4096][draw];
        offset := Min(start + limit, |plaintext|);
        buffer := plaintext[start..offset] + [APPLICATION_DATA];
        r := Data(plaintext[start..offset], 0);
      }
      assert buffer == Inner(r);
    }

    /** This send began at nonce n with `before` records sent and `at` frames written, and has sent text as rs. */
    ghost predicate Sending(n: u64, before: u32, at: nat, rs: seq<Record>, text: seq<byte>, complete: bool)
      requires Valid()
      reads this
    {
      && Sent(aead, CurrentKey(), n, scheme, padding, before, rs, text, written, at, complete)
      && nonce == n + |rs|
      && recordsSent == Min(before + |rs|, U32_MAX)
    }

    /** One turn of the send loop: draw, count, seal and write a record. */
    method SendRecord(plaintext: seq<byte>, start: nat, ghost n: u64, ghost before: u32, ghost at: nat,
                      ghost rs: seq<Record>)
      returns (ok: bool, offset: nat, ghost rs': seq<Record>)
      requires Valid() && start < |plaintext| && Sending(n, before, at, rs, plaintext[..start], false)
      modifies this`nonce, this`written, this`recordsSent, this`seals
      ensures ok ==> |rs'| == |rs| + 1 && rs == rs'[..|rs|] && State() == WriterStep(old(State()), Emit(rs'[|rs|]))
      ensures !ok ==> State() == old(State())
      ensures start <= offset <= |plaintext| && old(written) <= written
      ensures ok ==> Sending(n, before, at, rs', plaintext[..offset], offset == |plaintext|)
      ensures ok && offset == start ==> old(recordsSent) < recordsSent && padding && old(recordsSent) < |scheme|
      ensures !ok ==> nonce == old(nonce) == U64_MAX && rs' == rs && written == old(written)
    {
      var buffer;
      ghost var r;
      buffer, offset, r := DrawRecord(plaintext, start);
      recordsSent := Min(recordsSent + 1, U32_MAX);
      ok := WriteSealed(buffer, r);
      rs' := rs;
      if ok {
        SliceJoin(plaintext, start, offset);
        SentOneMore(aead, CurrentKey(), n, scheme, padding, before, rs, plaintext[..start], old(written), at,
                    old(nonce), r, offset == |plaintext|);
        rs' := rs + [r];
        assert plaintext[..offset] == plaintext[..start] + r.content;
      }
    }

    /**
     Sends plaintext as records whose contents concatenate to it. It terminates even when draws carry no
     data, and stops only when the nonce runs out, having sent a proper prefix.
     */
    method SendData(plaintext: seq<byte>) returns (ok: bool, ghost rs: seq<Record>)
      requires Valid()
      modifies this`nonce, this`written, this`recordsSent, this`seals
      ensures State() == WriterRun(old(State()), Emits(rs))
      ensures Sent(aead, CurrentKey(), old(nonce), scheme, padding, old(recordsSent), rs, Contents(rs),
                   written, |old(written)|, ok)
      ensures old(written) <= written && nonce == old(nonce) + |rs|
      ensures ok ==> recordsSent == Min(old(recordsSent) + |rs|, U32_MAX)
      ensures if ok then Contents(rs) == plaintext else nonce == U64_MAX && Contents(rs) < plaintext
    {
      hide Sent, WriterRun, WriterStep, Emits, ValidScheme, Aead.Correct, CurrentKey, ExpandKey, Contents;
      rs := [];
      var offset := 0;
      ghost var n, before, at := nonce, recordsSent, |written|;
      EmitsNothing(State());
      SentNothing(aead, CurrentKey(), nonce, scheme, padding, recordsSent, written, plaintext);
      while offset < |plaintext|
        invariant offset <= |plaintext| && old(written) <= written
        invariant Sending(n, before, at, rs, plaintext[..offset], offset == |plaintext|)
        invariant State() == WriterRun(old(State()), Emits(rs))
        decreases |plaintext| - offset, if padding then Max(0, |scheme| - recordsSent) else 0
      {
        ghost var earlier, start := rs, offset;
        ok, offset, rs := SendRecord(plaintext, offset, n, before, at, rs);
        if !ok {
          SentIsContents(aead, CurrentKey(), n, scheme, padding, before, rs, plaintext[..start], written, at, false);
          return false, rs;
        }
        EmitsOneMore(old(State()), earlier, rs[|earlier|]);
        assert rs == earlier + [rs[|earlier|]];
      }
      assert plaintext[..offset] == plaintext;
      SentIsContents(aead, CurrentKey(), n, scheme, padding, before, rs, plaintext, written, at, true);
      ok := true;
    }

    method SendCloseNotify() returns (ok: bool)
      requires Valid()
      modifies this`nonce, this`written, this`seals
      ensures State() == WriterStep(old(State()), Emit(CloseNotify))
      ensures ok <==> old(nonce) < U64_MAX
      ensures ok ==> nonce == old(nonce) + 1
      ensures ok ==> written == old(written) + [Frame(aead, CurrentKey(), old(nonce), CloseNotify)]
      ensures !ok ==> nonce == old(nonce) && written == old(written)
    {
      ok := WriteSealed([1, 0, ALERT], CloseNotify);
    }
  }

  // ---- Wire size -------------------------------------------------------------------------------

  /** The frames written are, as bytes, the wire image of the records. */
  lemma CarriedIsWire(a: Aead, k: Key, n: u64, rs: seq<Record>, text: seq<byte>, written: seq<seq<byte>>, at: nat)
    requires a.Correct() && Carries(a, k, n, rs, text, written, at)
    ensures Flatten(written) == Flatten(written[..at]) + WireOf(a, k, n, rs)
  {
    assert written[at..] == Frames(a, k, n, rs);
    assert written == written[..at] + written[at..];
    FlattenAppend(written[..at], written[at..]);
  }

  /** Outside the scheme a record that is not the last carries at least 4096 bytes. */
  lemma {:induction false} UnpaddedRecordCount(scheme: seq<(nat, nat)>, padding: bool, before: u32, rs: seq<Record>)
    requires ValidScheme(scheme) && (!padding || before >= |scheme|)
    requires Shaped(scheme, padding, before, rs, false)
    ensures |Contents(rs)| >= 4096 * |rs|
  {
    if rs != [] {
      var m := |rs| - 1;
      assert Shaped(scheme, padding, before, rs[..m], false);
      UnpaddedRecordCount(scheme, padding, before, rs[..m]);
      assert ShapedBy(scheme, padding, Min(before + m, U32_MAX), rs[m], false);
    }
  }

  lemma WireSnoc(a: Aead, k: Key, n: u64, rs: seq<Record>)
    requires a.Correct() && AllFit(rs) && n + |rs| <= U64_MAX && rs != []
    ensures var m := |rs| - 1;
      |WireOf(a, k, n, rs)| == |WireOf(a, k, n, rs[..m])| + |Inner(rs[m])| + TAG_SIZE + 5
  {
    var m := |rs| - 1;
    assert Frames(a, k, n, rs) == Frames(a, k, n, rs[..m]) + [Frame(a, k, n + m, rs[m])];
    FlattenSnoc(Frames(a, k, n, rs[..m]), Frame(a, k, n + m, rs[m]));
  }

  lemma {:induction false} UnpaddedWireLength(a: Aead, k: Key, n: u64, rs: seq<Record>)
    requires a.Correct() && AllFit(rs) && n + |rs| <= U64_MAX
    requires forall i :: 0 <= i < |rs| ==> rs[i].Data? && rs[i].pad == 0
    ensures |WireOf(a, k, n, rs)| == |Contents(rs)| + 22 * |rs|
  {
    if rs != [] {
      WireSnoc(a, k, n, rs);
      UnpaddedWireLength(a, k, n, rs[..|rs| - 1]);
    }
  }

  lemma UnpaddedRecords(scheme: seq<(nat, nat)>, padding: bool, before: u32, rs: seq<Record>)
    requires ValidScheme(scheme) && (!padding || before >= |scheme|)
    requires Shaped(scheme, padding, before, rs, true)
    ensures forall i :: 0 <= i < |rs| ==> rs[i].Data? && rs[i].pad == 0
    ensures |rs| <= (|Contents(rs)| + 4095) / 4096
  {
    forall i | 0 <= i < |rs|
      ensures rs[i].Data? && rs[i].pad == 0 && 0 < |rs[i].content|
    {
      assert ShapedBy(scheme, padding, Min(before + i, U32_MAX), rs[i], i == |rs| - 1);
    }
    if rs != [] {
      var m := |rs| - 1;
      assert Shaped(scheme, padding, before, rs[..m], false);
      UnpaddedRecordCount(scheme, padding, before, rs[..m]);
      assert |Contents(rs)| >= 4096 * m + 1;
    }
  }

  /** A send outside the scheme costs 22 bytes a record and at most one record per 4096 bytes begun. */
  lemma UnpaddedSendBound(a: Aead, k: Key, n: u64, scheme: seq<(nat, nat)>, padding: bool, before: u32, rs: seq<Record>)
    requires a.Correct() && AllFit(rs) && n + |rs| <= U64_MAX
    requires ValidScheme(scheme) && (!padding || before >= |scheme|)
    requires Shaped(scheme, padding, before, rs, true)
    ensures var size := |Contents(rs)|;
      && |WireOf(a, k, n, rs)| <= size + 22 * ((size + 4095) / 4096)
      && (size <= 65536 ==> |WireOf(a, k, n, rs)| <= WRITER_BUF_CAPACITY)
  {
    UnpaddedRecords(scheme, padding, before, rs);
    UnpaddedWireLength(a, k, n, rs);
  }

  lemma {:induction false} ContentsAppend(rs: seq<Record>, more: seq<Record>)
    ensures Contents(rs + more) == Contents(rs) + Contents(more)
  {
    if more == [] {
      assert rs + more == rs;
    } else {
      var m := |more| - 1;
      ContentsAppend(rs, more[..m]);
      assert (rs + more)[..|rs + more| - 1] == rs + more[..m];
      assert (rs + more)[|rs + more| - 1] == more[m];
    }
  }

  /** Two sends in a row under one key carry the two texts in a row. */
  lemma CarriesAppend(a: Aead, k: Key, n: u64, rs: seq<Record>, text: seq<byte>, written: seq<seq<byte>>, at: nat,
                      more: seq<Record>, text': seq<byte>, written': seq<seq<byte>>)
    requires a.Correct() && Carries(a, k, n, rs, text, written, at) && n + |rs| <= U64_MAX
    requires Carries(a, k, n + |rs|, more, text', written', |written|) && written <= written'
    ensures Carries(a, k, n, rs + more, text + text', written', at)
  {
    hide Aead.Correct, Frame, Fits, Contents;
    ContentsAppend(rs, more);
    forall i | 0 <= i < |rs + more|
      ensures written'[at + i] == Frame(a, k, n + i, (rs + more)[i])
    {
      if i >= |rs| {
        assert written'[|written| + (i - |rs|)] == Frame(a, k, n + |rs| + (i - |rs|), more[i - |rs|]);
      }
    }
  }
}
