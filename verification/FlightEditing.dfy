/**
 Adapting a handshake flight to a client: the session id echoed into a template, the random replaced, and the
 flight synthesised when there is no template. The client reads back the random and the suite.
 */
module FlightEditing {
  import opened Prelude
  import opened Bytes
  import opened ServerFlight
  import ClientHello

  // ---- Hello bodies ----------------------------------------------------------------------------

  /** The body of a record with one ServerHello: its own length field may say anything. */
  datatype Hello = Hello(kind: byte, length: nat, version: seq<byte>, random: seq<byte>, session: seq<byte>,
                         tail: seq<byte>)
  {
    predicate Valid() {
      && length < 0x100_0000 && |version| == 2 && |random| == 32 && |session| <= 255 && |Body()| <= U16_MAX
    }

    function Body(): (b: seq<byte>)
      requires length < 0x100_0000
    {
      [kind] + U24Bytes(length) + version + random + ClientHello.Vector8(session) + tail
    }
  }

  /** A flight that begins with a record holding that hello. */
  predicate Begins(rs: seq<Record>, h: Hello) {
    AllValid(rs) && h.Valid() && rs != [] && rs[0].kind == HELLO && rs[0].body == h.Body()
  }

  lemma HelloParts(h: Hello)
    requires h.Valid()
    ensures var b := h.Body();
      && |b| == 39 + |h.session| + |h.tail|
      && RandomIn(b) == h.random
      && CipherIn(b) == if |h.tail| >= 2 then U16At(h.tail, 0) else 0x1301
  {
    var b := h.Body();
    assert b[6..38] == h.random;
    assert b[38] as nat == |h.session|;
    var off := 39 + |h.session|;
    assert b[off..] == h.tail;
    if |h.tail| >= 2 {
      assert b[off] == h.tail[0] && b[off + 1] == h.tail[1];
    }
  }

  // ---- The client's offer ----------------------------------------------------------------------

  function SessionOf(hello: seq<byte>): Option<seq<byte>> {
    if |hello| < 44 || |hello| < 44 + hello[43] as nat then None else Some(hello[44..44 + hello[43] as nat])
  }

  /** The suites as pairs of bytes; an odd byte at the end is dropped. */
  function Pairs(b: seq<byte>): seq<seq<byte>> {
    if |b| < 2 then [] else [b[..2]] + Pairs(b[2..])
  }

  lemma {:induction false} PairsAt(b: seq<byte>)
    ensures |Pairs(b)| == |b| / 2
    ensures forall i :: 0 <= i < |b| / 2 ==> Pairs(b)[i] == b[2 * i..2 * i + 2]
  {
    if |b| >= 2 {
      PairsAt(b[2..]);
      forall i | 0 < i < |b| / 2
        ensures Pairs(b)[i] == b[2 * i..2 * i + 2]
      {
        assert Pairs(b)[i] == Pairs(b[2..])[i - 1] == b[2..][2 * (i - 1)..2 * (i - 1) + 2];
      }
    }
  }

  function Offered(hello: seq<byte>): seq<seq<byte>> {
    if |hello| < 44 || |hello| < 44 + hello[43] as nat + 2 then [] else
      var off := 44 + hello[43] as nat;
      Pairs(hello[off + 2..Min(off + 2 + U16At(hello, off), |hello|)])
  }

  lemma StandsAt(b: seq<byte>, front: seq<byte>, sid: seq<byte>, cs: seq<byte>, comp: seq<byte>, total: u16)
    requires |front| == 43
    requires At(b, 0, front + ClientHello.Vector8(sid) + (ClientHello.Vector16(cs) + ClientHello.Vector8(comp))
                      + U16Bytes(total))
    ensures At(b, 44, sid) && At(b, 46 + |sid|, cs)
  {
    hide U16Bytes, At;
    var n := 44 + |sid|;
    AtSplits(b, 0, front + ClientHello.Vector8(sid) + (ClientHello.Vector16(cs) + ClientHello.Vector8(comp)),
             U16Bytes(total));
    AtSplits(b, 0, front + ClientHello.Vector8(sid), ClientHello.Vector16(cs) + ClientHello.Vector8(comp));
    AtSplits(b, 0, front, ClientHello.Vector8(sid));
    AtSplits(b, 43, [(|sid| % 256) as byte], sid);
    AtSplits(b, n, ClientHello.Vector16(cs), ClientHello.Vector8(comp));
    AtSplits(b, n, U16Bytes(|cs| % 0x1_0000), cs);
  }

  /** From any well-formed hello the server side reads the session id and the suites it was built with. */
  lemma ReadsClientHello(h: ClientHello.Hello, rest: seq<byte>)
    requires h.Fits()
    ensures SessionOf(h.Record() + rest) == Some(h.session)
    ensures var offered := Offered(h.Record() + rest);
      && offered == Pairs(h.ciphers) && |offered| == |h.ciphers| / 2
      && forall i :: 0 <= i < |offered| ==> offered[i] == h.ciphers[2 * i..2 * i + 2]
  {
    PairsAt(h.ciphers);
    hide Pairs, ClientHello.ExtList, At, U16Bytes, U24Bytes, U16At, ClientHello.Vector8, ClientHello.Vector16;
    var b, n := h.Record() + rest, h.BodyLength();
    ClientHello.HelloFields(h, rest);
    ClientHello.FrontAt(h, rest);
    var front := [0x16] + h.recordVersion + U16Bytes(4 + n) + [1] + U24Bytes(n) + h.version + h.random;
    StandsAt(b, front, h.session, h.ciphers, h.compressions, |ClientHello.ExtList(h.exts)|);
    Stands(b, 44, h.session);
    Stands(b, 46 + |h.session|, h.ciphers);
  }

  lemma Stands(b: seq<byte>, off: nat, e: seq<byte>)
    requires At(b, off, e)
    ensures off + |e| <= |b| && b[off..off + |e|] == e
  {
  }

  const AES256: seq<byte> := [0x13, 0x02]
  const AES128: seq<byte> := [0x13, 0x01]
  const CHACHA: seq<byte> := [0x13, 0x03]

  /** AES-256 before AES-128 before ChaCha20 among what the client offers; AES-128 if it offers none of them. */
  predicate Picked(offered: seq<seq<byte>>, c: seq<byte>) {
    if AES256 in offered then c == AES256
    else if CHACHA in offered && AES128 !in offered then c == CHACHA
    else c == AES128
  }

  method PickCipher(hello: seq<byte>) returns (c: seq<byte>)
    ensures Picked(Offered(hello), c)
    ensures var offered := Offered(hello);
      c == if [0x13, 0x02] in offered then [0x13, 0x02] else if [0x13, 0x01] in offered then [0x13, 0x01]
           else if [0x13, 0x03] in offered then [0x13, 0x03] else [0x13, 0x01]
  {
    if |hello| < 44 {
      return AES128;
    }
    var off := 44 + hello[43] as nat;
    if |hello| < off + 2 {
      return AES128;
    }
    var pairs := Pairs(hello[off + 2..Min(off + 2 + U16At(hello, off), |hello|)]);
    var prefs := [AES256, AES128, CHACHA];
    for i := 0 to 3
      invariant (i > 0 ==> AES256 !in pairs) && (i > 1 ==> AES128 !in pairs) && (i > 2 ==> CHACHA !in pairs)
    {
      if prefs[i] in pairs {
        return prefs[i];
      }
    }
    return AES128;
  }

  // ---- The synthesised flight ------------------------------------------------------------------

  function Extensions(share: seq<byte>): seq<byte> {
    [0, 0x2B, 0, 2, 3, 4] + [0, 0x33, 0, 0x24, 0, 0x1D, 0, 0x20] + share
  }

  function HelloTail(cipher: seq<byte>, share: seq<byte>): seq<byte> {
    cipher + [0] + ClientHello.Vector16(Extensions(share))
  }

  /** The hello's tail: the suite, no compression, and two extensions, the version 3.4 and an X25519 share. */
  lemma FallbackTail(cipher: seq<byte>, share: seq<byte>)
    requires |share| == 32
    ensures HelloTail(cipher, share) == cipher + [0] + [0, 46]
            + ClientHello.ExtList([ClientHello.Ext(43, [3, 4]), ClientHello.Ext(51, [0, 29, 0, 32] + share)])
  {
    var version, key := ClientHello.Ext(43, [3, 4]), ClientHello.Ext(51, [0, 29, 0, 32] + share);
    assert U16Bytes(43) == [0, 43] && U16Bytes(2) == [0, 2] && U16Bytes(51) == [0, 51] && U16Bytes(36) == [0, 36];
    assert version.Bytes() == [0, 43, 0, 2, 3, 4];
    assert key.Bytes() == [0, 51, 0, 36, 0, 29, 0, 32] + share;
    assert [version, key][1..] == [key] && [key][1..] == [];
    NoExtensions();
    assert ClientHello.ExtList([key]) == key.Bytes() + ClientHello.ExtList([key][1..]);
    assert ClientHello.ExtList([version, key]) == version.Bytes() + ClientHello.ExtList([version, key][1..]);
    assert U16Bytes(46) == [0, 46];
  }

  lemma NoExtensions()
    ensures ClientHello.ExtList([]) == []
  {
  }

  /** A hello with the session id echoed, a change of cipher spec and one record of filler. */
  function Fallback(cipher: seq<byte>, session: seq<byte>, random: seq<byte>, share: seq<byte>, filler: seq<byte>)
    : seq<byte>
  {
    var body := [3, 3] + random + ClientHello.Vector8(session) + HelloTail(cipher, share);
    [HELLO, 3, 3] + U16Bytes((4 + |body|) % 0x1_0000) + [2] + U24Bytes(|body| % 0x100_0000) + body
    + [CIPHER_SPEC, 3, 3, 0, 1, 1]
    + [ENCRYPTED, 3, 3] + U16Bytes(|filler| % 0x1_0000) + filler
  }

  method FallbackServerHello(hello: seq<byte>, session: seq<byte>, random: seq<byte>, share: seq<byte>,
                             filler: seq<byte>)
    returns (out: seq<byte>)
    ensures exists c :: Picked(Offered(hello), c) && out == Fallback(c, session, random, share, filler)
  {
    hide U16Bytes, U24Bytes, Extensions, Picked, Offered;
    var c := PickCipher(hello);
    var body := [3, 3] + random + ClientHello.Vector8(session);
    body := body + (c + [0] + ClientHello.Vector16(Extensions(share)));
    out := [HELLO, 3, 3] + U16Bytes((4 + |body|) % 0x1_0000);
    out := out + [2] + U24Bytes(|body| % 0x100_0000) + body;
    out := out + [CIPHER_SPEC, 3, 3, 0, 1, 1];
    out := out + [ENCRYPTED, 3, 3] + U16Bytes(|filler| % 0x1_0000) + filler;
    assert out == Fallback(c, session, random, share, filler);
  }

  // ---- Editing in place ------------------------------------------------------------------------

  function Clamped(x: int, max: nat): (r: nat)
    ensures r <= max
    ensures 0 <= x <= max ==> r == x
  {
    if x < 0 then 0 else if x > max then max else x
  }

  function Spliced(flight: seq<byte>, session: seq<byte>): seq<byte>
    requires |flight| >= 44 && |flight| >= 44 + flight[43] as nat
  {
    flight[..43] + [(|session| % 256) as byte] + session + flight[44 + flight[43] as nat..]
  }

  /** The flight with the client's session id and a new random; both lengths are corrected and clamped. */
  function Patched(flight: seq<byte>, session: seq<byte>, random: seq<byte>): seq<byte>
    requires |random| == 32
  {
    if |flight| < 44 || flight[0] != HELLO || |flight| < 44 + flight[43] as nat then flight else
      var diff := |session| - flight[43] as nat;
      var b := Put(Spliced(flight, session), 11, random);
      Put(Put(b, 3, U16Bytes(Clamped(U16At(flight, 3) + diff, U16_MAX))),
          6, U24Bytes(Clamped(U24At(flight, 6) + diff, 0xFF_FFFF)))
  }

  /** The random overwritten where the first record's hello has it. */
  function Overridden(flight: seq<byte>, key: seq<byte>): seq<byte>
    requires |key| == 32
  {
    if |flight| >= 43 && flight[0] == HELLO then Put(flight, 11, key) else flight
  }

  /** What patching leaves alone, and what it replaces, for every flight whatever. */
  lemma PatchKeepsRest(flight: seq<byte>, session: seq<byte>, random: seq<byte>)
    requires |random| == 32 && |session| <= 255
    ensures var out := Patched(flight, session, random);
      if |flight| < 44 || flight[0] != 0x16 || |flight| < 44 + flight[43] as nat then out == flight
      else
        && |out| == |flight| - flight[43] as nat + |session|
        && out[..3] == flight[..3] && out[5] == flight[5] && out[9..11] == flight[9..11]
        && out[11..43] == random && out[43] as nat == |session| && out[44..44 + |session|] == session
        && out[44 + |session|..] == flight[44 + flight[43] as nat..]
  {
    hide Put, Patched, Spliced;
    if |flight| >= 44 && flight[0] == 0x16 && |flight| >= 44 + flight[43] as nat {
      var out, t := Patched(flight, session, random), Spliced(flight, session);
      SplicedSize(flight, session);
      forall i: nat | i < |t| && !(3 <= i < 5) && !(6 <= i < 9)
        ensures |out| == |t| && out[i] == if 11 <= i < 43 then random[i - 11] else t[i]
      {
        PatchedAt(flight, session, random, i);
      }
      SplicedParts(flight, session);
      PatchedAt(flight, session, random, 0);
      assert out[44 + |session|..] == t[44 + |session|..] && out[44..44 + |session|] == t[44..44 + |session|];
    } else {
      PatchRefused(flight, session, random);
    }
  }

  lemma PatchRefused(flight: seq<byte>, session: seq<byte>, random: seq<byte>)
    requires |random| == 32 && (|flight| < 44 || flight[0] != 0x16 || |flight| < 44 + flight[43] as nat)
    ensures Patched(flight, session, random) == flight
  {
  }

  lemma SplicedSize(flight: seq<byte>, session: seq<byte>)
    requires |flight| >= 44 && |flight| >= 44 + flight[43] as nat
    ensures |Spliced(flight, session)| == |flight| - flight[43] as nat + |session| >= 44
  {
  }

  lemma SplicedParts(flight: seq<byte>, session: seq<byte>)
    requires |flight| >= 44 && |flight| >= 44 + flight[43] as nat && |session| <= 255
    ensures var t := Spliced(flight, session);
      && |t| >= 44 + |session| && t[..43] == flight[..43] && t[43] as nat == |session|
      && t[44..44 + |session|] == session && t[44 + |session|..] == flight[44 + flight[43] as nat..]
  {
  }

  lemma PatchedAt(flight: seq<byte>, session: seq<byte>, random: seq<byte>, i: nat)
    requires |random| == 32 && |flight| >= 44 && flight[0] == 0x16 && |flight| >= 44 + flight[43] as nat
    requires i < |Spliced(flight, session)| && !(3 <= i < 5) && !(6 <= i < 9)
    ensures |Patched(flight, session, random)| == |Spliced(flight, session)|
    ensures Patched(flight, session, random)[i] == if 11 <= i < 43 then random[i - 11] else Spliced(flight, session)[i]
  {
    hide Put, Spliced, U16Bytes, U24Bytes, U16At, U24At, Clamped;
    SplicedSize(flight, session);
    var diff := |session| - flight[43] as nat;
    var t := Spliced(flight, session);
    var b := Put(t, 11, random);
    var record, hello := U16Bytes(Clamped(U16At(flight, 3) + diff, U16_MAX)),
      U24Bytes(Clamped(U24At(flight, 6) + diff, 0xFF_FFFF));
    PutAt(t, 11, random, i);
    PutAt(b, 3, record, i);
    PutAt(Put(b, 3, record), 6, hello, i);
  }

  /** Overriding takes a flight of 43 bytes or more that begins with a handshake record, and only its random. */
  lemma OverriddenBytes(flight: seq<byte>, key: seq<byte>)
    requires |key| == 32
    ensures var out := Overridden(flight, key);
      if |flight| >= 43 && flight[0] == 0x16 then
        |out| == |flight| && out[..11] == flight[..11] && out[11..43] == key && out[43..] == flight[43..]
      else out == flight
  {
  }

  method PatchServerHello(flight: seq<byte>, session: seq<byte>, random: seq<byte>) returns (out: array<byte>)
    requires |random| == 32
    ensures fresh(out) && out[..] == Patched(flight, session, random)
  {
    hide Put, U16At, U24At, U16Bytes, U24Bytes;
    if |flight| < 44 || flight[0] != HELLO || |flight| < 44 + flight[43] as nat {
      out := new byte[|flight|](i requires 0 <= i < |flight| => flight[i]);
      return;
    }
    var diff := |session| - flight[43] as nat;
    var result := Spliced(flight, session);
    out := new byte[|result|](i requires 0 <= i < |result| => result[i]);
    assert out[..] == result;
    ClientHello.CopyAt(out, 11, random);
    ClientHello.CopyAt(out, 3, U16Bytes(Clamped(U16At(flight, 3) + diff, U16_MAX)));
    ClientHello.CopyAt(out, 6, U24Bytes(Clamped(U24At(flight, 6) + diff, 0xFF_FFFF)));
  }

  method Override(flight: array<byte>, key: Option<seq<byte>>)
    requires key.Some? ==> |key.value| == 32
    modifies flight
    ensures flight[..] == if key.Some? then Overridden(old(flight[..]), key.value) else old(flight[..])
  {
    if key.Some? {
      if flight.Length >= 43 && flight[0] == HELLO {
        ClientHello.CopyAt(flight, 11, key.value);
      }
    }
  }

  // ---- Edits keep the framing ------------------------------------------------------------------

  /** The bytes of a record with a hello, around its fields that are edited. */
  function Front(v: seq<byte>, rec: u16, kind: byte, length: nat, version: seq<byte>, random: seq<byte>, n: byte)
    : (b: seq<byte>)
    requires length < 0x100_0000
    ensures |v| == 2 && |version| == 2 && |random| == 32 ==> |b| == 44
  {
    [HELLO] + v + U16Bytes(rec) + [kind] + U24Bytes(length) + version + random + [n]
  }

  lemma FrontParts(v: seq<byte>, rec: u16, kind: byte, length: nat, version: seq<byte>, random: seq<byte>, n: byte)
    requires length < 0x100_0000
    ensures var f := Front(v, rec, kind, length, version, random, n);
      && f == ([HELLO] + v) + U16Bytes(rec) + ([kind] + U24Bytes(length) + version + random + [n])
      && f == ([HELLO] + v + U16Bytes(rec) + [kind]) + U24Bytes(length) + (version + random + [n])
      && f == ([HELLO] + v + U16Bytes(rec) + [kind] + U24Bytes(length) + version) + random + [n]
  {
    hide U16Bytes, U24Bytes;
  }

  lemma PutsInFront(v: seq<byte>, rec: u16, kind: byte, length: nat, version: seq<byte>, random: seq<byte>, n: byte,
                    rec': u16, length': nat, random': seq<byte>)
    requires |v| == 2 && |version| == 2 && |random| == |random'| == 32 && length < 0x100_0000 && length' < 0x100_0000
    ensures Put(Put(Put(Front(v, rec, kind, length, version, random, n), 11, random'), 3, U16Bytes(rec')),
                6, U24Bytes(length'))
         == Front(v, rec', kind, length', version, random', n)
  {
    hide Put, Front, U16Bytes, U24Bytes;
    FrontParts(v, rec, kind, length, version, random, n);
    FrontParts(v, rec, kind, length, version, random', n);
    FrontParts(v, rec', kind, length, version, random', n);
    FrontParts(v, rec', kind, length', version, random', n);
    PutMiddle([HELLO] + v + U16Bytes(rec) + [kind] + U24Bytes(length) + version, random, [n], random');
    PutMiddle([HELLO] + v, U16Bytes(rec), [kind] + U24Bytes(length) + version + random' + [n], U16Bytes(rec'));
    PutMiddle([HELLO] + v + U16Bytes(rec') + [kind], U24Bytes(length), version + random' + [n], U24Bytes(length'));
  }

  function FrontOf(v: seq<byte>, h: Hello): (b: seq<byte>)
    requires h.Valid()
  {
    Front(v, |h.Body()|, h.kind, h.length, h.version, h.random, |h.session| as byte)
  }

  lemma FlightSplits(r: Record, h: Hello, rest: seq<Record>)
    requires Begins([r] + rest, h)
    ensures AllValid(rest) && r.Valid()
    ensures Flight([r] + rest) == FrontOf(r.version, h) + h.session + (h.tail + Flight(rest))
  {
    hide U16Bytes, U24Bytes, Flight;
    var all := [r] + rest;
    assert all[0] == r && forall i :: 0 <= i < |rest| ==> rest[i] == all[i + 1];
    FlightCons(r, rest);
    RecordSplits(r, h);
    AppendAssociates(FrontOf(r.version, h) + h.session, h.tail, Flight(rest));
  }

  lemma RecordSplits(r: Record, h: Hello)
    requires r.Valid() && h.Valid() && r.kind == HELLO && r.body == h.Body()
    ensures r.Bytes() == FrontOf(r.version, h) + h.session + h.tail
  {
    hide U16Bytes, U24Bytes;
    var front := [HELLO] + r.version + U16Bytes(|r.body|);
    BodyJoins(front, [h.kind], U24Bytes(h.length), h.version, h.random, [|h.session| as byte], h.session, h.tail);
  }

  lemma BodyJoins(f: seq<byte>, k: seq<byte>, l: seq<byte>, v: seq<byte>, r: seq<byte>, n: seq<byte>,
                  s: seq<byte>, t: seq<byte>)
    ensures f + (k + l + v + r + (n + s) + t) == f + k + l + v + r + n + s + t
  {
  }

  lemma FrontReads(v: seq<byte>, h: Hello, rest: seq<byte>)
    requires h.Valid() && |v| == 2
    ensures var b := FrontOf(v, h) + rest;
      && |FrontOf(v, h)| == 44 && b[0] == HELLO && b[43] as nat == |h.session|
      && U16At(b, 3) == |h.Body()| && U24At(b, 6) == h.length
  {
    hide U16Bytes, U24Bytes, U16At, U24At, At, Hello.Body;
    var f, n := FrontOf(v, h), |h.Body()|;
    FrontParts(v, n, h.kind, h.length, h.version, h.random, |h.session| as byte);
    var after, last := [h.kind] + U24Bytes(h.length) + h.version + h.random + [|h.session| as byte],
                       h.version + h.random + [|h.session| as byte];
    Middle([HELLO] + v, U16Bytes(n), after + rest);
    Middle([HELLO] + v + U16Bytes(n) + [h.kind], U24Bytes(h.length), last + rest);
    AppendAssociates([HELLO] + v + U16Bytes(n), after, rest);
    AppendAssociates([HELLO] + v + U16Bytes(n) + [h.kind] + U24Bytes(h.length), last, rest);
    U16Stands(f + rest, 3, n);
    U24Stands(f + rest, 6, h.length);
  }

  lemma SplicesSession(front: seq<byte>, n: byte, sid: seq<byte>, rest: seq<byte>, session: seq<byte>)
    requires |front| == 43 && n as nat == |sid| && |session| <= 255
    ensures Spliced(front + [n] + sid + rest, session) == front + [|session| as byte] + session + rest
  {
    var b := front + [n] + sid + rest;
    assert b[43] == n && b[..43] == front && b[44 + |sid|..] == rest;
  }

  function PatchedHello(h: Hello, session: seq<byte>, random: seq<byte>): Hello {
    h.(length := Clamped(h.length + |session| - |h.session|, 0xFF_FFFF), random := random, session := session)
  }

  /** A flight with the first record's body replaced. */
  function WithHello(rs: seq<Record>, h: Hello): seq<Record>
    requires rs != [] && h.length < 0x100_0000
  {
    [rs[0].(body := h.Body())] + rs[1..]
  }

  /**
   Patching a flight whose first record holds a hello with all of its session id is an edit of that hello: the
   record's length follows, and every other record is as it was.
   */
  lemma PatchEditsHello(rs: seq<Record>, h: Hello, session: seq<byte>, random: seq<byte>)
    requires Begins(rs, h) && |session| <= 255 && |random| == 32
    requires PatchedHello(h, session, random).Valid()
    ensures var h' := PatchedHello(h, session, random);
      Begins(WithHello(rs, h'), h') && Patched(Flight(rs), session, random) == Flight(WithHello(rs, h'))
  {
    hide U16Bytes, U24Bytes, U16At, U24At, Flight, Put, Hello.Body, Spliced;
    var r, rest, h' := rs[0], rs[1..], PatchedHello(h, session, random);
    BodySizes(h, h');
    var all := WithHello(rs, h');
    assert [r] + rest == rs;
    assert all[0] == r.(body := h'.Body());
    assert forall i :: 1 <= i < |all| ==> all[i] == rs[i];
    FlightSplits(r, h, rest);
    FlightSplits(all[0], h', rest);
    var behind := h.tail + Flight(rest);
    FrontReads(r.version, h, h.session + behind);
    AppendAssociates(FrontOf(r.version, h), h.session, behind);
    var rec := |h.Body()|;
    var front := [HELLO] + r.version + U16Bytes(rec) + [h.kind] + U24Bytes(h.length) + h.version + h.random;
    SplicesSession(front, |h.session| as byte, h.session, behind, session);
    var n := |session| as byte;
    var mid := Front(r.version, rec, h.kind, h.length, h.version, h.random, n);
    AppendAssociates(mid, session, behind);
    var rec' := |h'.Body()|;
    PutsBeforeRest(mid, session + behind, random, U16Bytes(rec'), U24Bytes(h'.length));
    PutsInFront(r.version, rec, h.kind, h.length, h.version, h.random, n, rec', h'.length, random);
    AppendAssociates(FrontOf(r.version, h'), session, behind);
  }

  lemma BodySizes(h: Hello, h': Hello)
    requires h.Valid() && h'.Valid() && |h'.tail| == |h.tail|
    ensures |h'.Body()| == |h.Body()| + |h'.session| - |h.session|
  {
  }

  lemma PutsBeforeRest(a: seq<byte>, rest: seq<byte>, x: seq<byte>, y: seq<byte>, z: seq<byte>)
    requires |a| == 44 && |x| == 32 && |y| == 2 && |z| == 3
    ensures Put(Put(Put(a + rest, 11, x), 3, y), 6, z) == Put(Put(Put(a, 11, x), 3, y), 6, z) + rest
  {
    hide Put;
    PutInFront(a, rest, 11, x);
    PutInFront(Put(a, 11, x), rest, 3, y);
    PutInFront(Put(Put(a, 11, x), 3, y), rest, 6, z);
  }

  /** Overriding the random is an edit of the hello too. */
  lemma OverrideEditsHello(rs: seq<Record>, h: Hello, key: seq<byte>)
    requires Begins(rs, h) && |key| == 32
    ensures var h' := h.(random := key);
      Begins(WithHello(rs, h'), h') && Overridden(Flight(rs), key) == Flight(WithHello(rs, h'))
  {
    hide U16Bytes, U24Bytes, U16At, U24At, Flight, Put, Hello.Body;
    var r, rest, h' := rs[0], rs[1..], h.(random := key);
    SameSize(h, h');
    var all := WithHello(rs, h');
    assert [r] + rest == rs;
    assert all[0] == r.(body := h'.Body());
    assert forall i :: 1 <= i < |all| ==> all[i] == rs[i];
    FlightSplits(r, h, rest);
    FlightSplits(all[0], h', rest);
    var behind := h.session + (h.tail + Flight(rest));
    FrontReads(r.version, h, behind);
    AppendAssociates(FrontOf(r.version, h), h.session, h.tail + Flight(rest));
    AppendAssociates(FrontOf(r.version, h'), h.session, h.tail + Flight(rest));
    var n, sid := |h.Body()|, |h.session| as byte;
    FrontParts(r.version, n, h.kind, h.length, h.version, h.random, sid);
    FrontParts(r.version, n, h.kind, h.length, h.version, key, sid);
    PutMiddle([HELLO] + r.version + U16Bytes(n) + [h.kind] + U24Bytes(h.length) + h.version, h.random, [sid], key);
    PutInFront(FrontOf(r.version, h), behind, 11, key);
  }

  lemma SameSize(h: Hello, h': Hello)
    requires h.Valid() && |h'.random| == 32 && h' == h.(random := h'.random)
    ensures h'.Valid() && |h'.Body()| == |h.Body()|
  {
  }

  // ---- What the client gets --------------------------------------------------------------------

  lemma KindsKept(rs: seq<Record>, h: Hello)
    requires rs != [] && rs[0].kind == HELLO && h.length < 0x100_0000
    ensures forall k :: HasKind(WithHello(rs, h), k) <==> HasKind(rs, k)
    ensures FirstHello(WithHello(rs, h)) == Some(h.Body())
  {
    var all := WithHello(rs, h);
    assert [rs[0]] + rs[1..] == rs && all[1..] == rs[1..];
    forall k
      ensures HasKind(all, k) <==> HasKind(rs, k)
    {
      HasKindCons(rs[0], rs[1..], k);
      HasKindCons(all[0], rs[1..], k);
    }
  }

  function SuiteOf(h: Hello): u16 {
    if |h.tail| >= 2 then U16At(h.tail, 0) else 0x1301
  }

  /** A complete, alert-free flight that begins with a hello is accepted if its random is not zero. */
  lemma ClientReads(rs: seq<Record>, h: Hello)
    requires Begins(rs, h) && HasAll(rs) && !HasKind(rs, ALERT) && h.random != ZERO_RANDOM
    ensures Complete(Flight(rs)) && Reading(Flight(rs), 0, NOTHING) == Ok(Handshake(h.random, SuiteOf(h)))
  {
    hide Flight, HasKind, Reading, RandomIn, CipherIn, Records;
    CompleteMeansFramed(Flight(rs));
    NoAlertKeepsAll(rs);
    ClientSucceedsExactly(rs);
    HelloParts(h);
    assert FirstHello(rs) == Some(h.Body());
  }

  /**
   What is served from a complete template: it stays complete, and the client accepts it with the random that
   was put in last and with the template's own suite, whatever session id it asked to be echoed.
   */
  lemma TemplateServes(rs: seq<Record>, h: Hello, session: seq<byte>, random: seq<byte>, key: Option<seq<byte>>)
    requires Begins(rs, h) && HasAll(rs) && !HasKind(rs, ALERT)
    requires |session| <= 255 && |random| == 32 && PatchedHello(h, session, random).Valid()
    requires key.Some? ==> |key.value| == 32
    requires (if key.Some? then key.value else random) != ZERO_RANDOM
    ensures var patched := Patched(Flight(rs), session, random);
      var out := if key.Some? then Overridden(patched, key.value) else patched;
      Complete(out)
      && Reading(out, 0, NOTHING) == Ok(Handshake(if key.Some? then key.value else random, SuiteOf(h)))
  {
    hide Patched, Overridden, Flight, Reading, HasKind, Complete, Hello.Body, Hello.Valid;
    var h' := PatchedHello(h, session, random);
    var served := WithHello(rs, h');
    PatchEditsHello(rs, h, session, random);
    KindsKept(rs, h');
    if key.Some? {
      var h'' := h'.(random := key.value);
      OverrideEditsHello(served, h', key.value);
      KindsKept(served, h'');
      ClientReads(WithHello(served, h''), h'');
    } else {
      ClientReads(served, h');
    }
  }

  lemma FallbackJoins(a: seq<byte>, n: seq<byte>, k: seq<byte>, body: seq<byte>, spec: seq<byte>,
                      e: seq<byte>, m: seq<byte>, f: seq<byte>)
    ensures a + n + k + body + spec + e + m + f == (a + n + (k + body)) + (spec + (e + m + f))
  {
  }

  lemma FallbackBytes(body: seq<byte>, h: Hello, filler: seq<byte>)
    requires h.Valid() && h.kind == 2 && h.length == |body| && |body| + 4 <= U16_MAX && |filler| <= U16_MAX
    requires h.Body() == [2] + U24Bytes(|body|) + body
    ensures Record(HELLO, [3, 3], h.Body()).Bytes()
            + (Record(CIPHER_SPEC, [3, 3], [1]).Bytes() + Record(ENCRYPTED, [3, 3], filler).Bytes())
         == [HELLO, 3, 3] + U16Bytes(4 + |body|) + [2] + U24Bytes(|body|) + body + [CIPHER_SPEC, 3, 3, 0, 1, 1]
            + [ENCRYPTED, 3, 3] + U16Bytes(|filler|) + filler
  {
    hide U16Bytes, U24Bytes, Hello.Body;
    var v: seq<byte> := [3, 3];
    assert [HELLO] + v == [HELLO, 3, 3] && [ENCRYPTED] + v == [ENCRYPTED, 3, 3];
    SpecBytes();
    FallbackJoins([HELLO, 3, 3], U16Bytes(4 + |body|), [2] + U24Bytes(|body|), body, [CIPHER_SPEC, 3, 3, 0, 1, 1],
                  [ENCRYPTED, 3, 3], U16Bytes(|filler|), filler);
    AppendAssociates([HELLO, 3, 3] + U16Bytes(4 + |body|), [2], U24Bytes(|body|));
  }

  lemma TailSize(cipher: seq<byte>, share: seq<byte>)
    requires |cipher| == 2 && |share| == 32
    ensures |HelloTail(cipher, share)| == 51 && U16At(HelloTail(cipher, share), 0) == U16At(cipher, 0)
  {
  }

  /** The synthesised flight is three records that begin with a hello. */
  lemma FallbackIsFlight(cipher: seq<byte>, session: seq<byte>, random: seq<byte>, share: seq<byte>, filler: seq<byte>)
    returns (rs: seq<Record>, h: Hello)
    requires |cipher| == 2 && |session| <= 255 && |random| == 32 && |share| == 32 && |filler| <= U16_MAX
    ensures Begins(rs, h) && HasAll(rs) && !HasKind(rs, ALERT)
    ensures Fallback(cipher, session, random, share, filler) == Flight(rs)
    ensures h.random == random && h.session == session && SuiteOf(h) == U16At(cipher, 0)
  {
    hide U16Bytes, U24Bytes, U16At, HelloTail, Flight, HasKind, HasAll;
    TailSize(cipher, share);
    var tail := HelloTail(cipher, share);
    var v: seq<byte> := [3, 3];
    var body := v + random + ClientHello.Vector8(session) + tail;
    h := Hello(2, |body|, v, random, session, tail);
    HelloBodyIs(h, body);
    var first, spec, data := Record(HELLO, v, h.Body()), Record(CIPHER_SPEC, v, [1]), Record(ENCRYPTED, v, filler);
    rs := [first, spec, data];
    ThreeKinds(first, spec, data);
    FallbackRecords(first, spec, data);
    FallbackBytes(body, h, filler);
  }

  lemma HelloBodyIs(h: Hello, body: seq<byte>)
    requires h.length < 0x100_0000
    requires body == h.version + h.random + ClientHello.Vector8(h.session) + h.tail
    ensures h.Body() == [h.kind] + U24Bytes(h.length) + body
  {
    hide U24Bytes;
  }

  lemma SpecBytes()
    ensures Record(CIPHER_SPEC, [3, 3], [1]).Bytes() == [CIPHER_SPEC, 3, 3, 0, 1, 1]
  {
  }

  lemma FallbackRecords(a: Record, b: Record, c: Record)
    requires a.Valid() && b.Valid() && c.Valid()
    ensures AllValid([a, b, c]) && Flight([a, b, c]) == a.Bytes() + (b.Bytes() + c.Bytes())
  {
    hide Flight;
    FlightCons(c, []);
    FlightCons(b, [c]);
    FlightCons(a, [b, c]);
    assert [a] + ([b] + [c]) == [a, b, c] && [b] + [c] == [b, c] && [c] + [] == [c];
    NoRecords();
    assert c.Bytes() + [] == c.Bytes();
  }

  lemma NoRecords()
    ensures Flight([]) == []
  {
  }

  /** With no template the client still gets a complete flight with the suite picked for it and the random sent. */
  lemma FallbackServes(cipher: seq<byte>, session: seq<byte>, random: seq<byte>, share: seq<byte>, filler: seq<byte>)
    requires |cipher| == 2 && |session| <= 255 && |random| == 32 && |share| == 32 && |filler| <= U16_MAX
    requires random != ZERO_RANDOM
    ensures var out := Fallback(cipher, session, random, share, filler);
      Complete(out) && Reading(out, 0, NOTHING) == Ok(Handshake(random, U16At(cipher, 0)))
  {
    hide Fallback, Complete, Reading, HasKind, HasAll;
    var rs, h := FallbackIsFlight(cipher, session, random, share, filler);
    ClientReads(rs, h);
  }

  // ---- When a template can be patched ----------------------------------------------------------

  /** A body that holds the session id its byte 38 announces is a hello's. */
  lemma BodyHasHello(body: seq<byte>) returns (h: Hello)
    requires 39 <= |body| <= U16_MAX && 39 + body[38] as nat <= |body|
    ensures h.Valid() && h.Body() == body && |h.session| == body[38] as nat
  {
    var n := 39 + body[38] as nat;
    h := Hello(body[0], U24At(body, 1), body[4..6], body[6..38], body[39..n], body[n..]);
    U24Inverse(body, 1);
    assert ClientHello.Vector8(h.session) == body[38..n];
    hide U24Bytes, U24At, ClientHello.Vector8;
    BodySlices(body, n);
  }

  lemma U24Inverse(b: seq<byte>, i: nat)
    requires i + 3 <= |b|
    ensures U24Bytes(U24At(b, i)) == b[i..i + 3]
  {
    var v := U24At(b, i);
    assert v / 256 == 256 * b[i] as int + b[i + 1] as int;
    assert v / 0x1_0000 == v / 256 / 256;
  }

  lemma BodySlices(b: seq<byte>, n: nat)
    requires 39 <= n <= |b|
    ensures [b[0]] + b[1..4] + b[4..6] + b[6..38] + b[38..n] + b[n..] == b
  {
    SliceJoin(b, 1, 4);
    SliceJoin(b, 4, 6);
    SliceJoin(b, 6, 38);
    SliceJoin(b, 38, n);
    assert b[..1] == [b[0]] && b[..n] + b[n..] == b;
  }

  /** A template the client would accept unpatched, beginning with its hello. */
  predicate Usable(rs: seq<Record>) {
    && AllValid(rs) && HasAll(rs) && !HasKind(rs, ALERT)
    && rs[0].kind == HELLO && RandomIn(rs[0].body) != ZERO_RANDOM
  }

  /** The patched record's length stays in its field. */
  predicate Fits(t: seq<byte>, body: seq<byte>, session: seq<byte>)
    requires |t| >= 44
  {
    |session| <= 255 && |body| + |session| - t[43] as nat <= U16_MAX
  }

  lemma RecordFront(r: Record, rest: seq<byte>)
    requires r.Valid()
    ensures var t := r.Bytes() + rest;
      && t[0] == r.kind && U16At(t, 3) == |r.body| && (|r.body| >= 39 ==> t[43] == r.body[38])
  {
    hide U16At, U16Bytes, At;
    var head := [r.kind] + r.version;
    AppendAssociates(head + U16Bytes(|r.body|), r.body, rest);
    Middle(head, U16Bytes(|r.body|), r.body + rest);
    U16Stands(r.Bytes() + rest, 3, |r.body|);
  }

  lemma FirstBytes(rs: seq<Record>)
    requires AllValid(rs) && rs != [] && |Flight(rs)| >= 44 && |rs[0].body| >= 38
    ensures var t := Flight(rs);
      && t[0] == rs[0].kind && U16At(t, 3) == |rs[0].body| && |t| >= 5 + |rs[0].body|
      && (|rs[0].body| >= 39 ==> t[43] == rs[0].body[38])
  {
    assert Flight(rs) == rs[0].Bytes() + Flight(rs[1..]);
    RecordFront(rs[0], Flight(rs[1..]));
  }

  lemma SplicedBytes(t: seq<byte>, session: seq<byte>)
    requires |t| >= 44 && |t| >= 44 + t[43] as nat && |session| == 255
    ensures var b := Spliced(t, session);
      && |b| == |t| + 255 - t[43] as nat && b[0] == t[0] && b[43] == 255
      && forall i :: 0 <= i < 255 ==> b[44 + i] == session[i]
  {
  }

  lemma PutsKeep(b: seq<byte>, x: seq<byte>, f: seq<byte>, g: seq<byte>)
    requires |b| >= 44 && |x| == 32 && |f| == 2 && |g| == 3
    ensures var out := Put(Put(Put(b, 11, x), 3, f), 6, g);
      && |out| == |b| && out[0] == b[0] && out[3..5] == f && out[43..] == b[43..]
  {
    var b1 := Put(b, 11, x);
    var b2 := Put(b1, 3, f);
    ClientHello.PutElsewhere(b, 11, x, 43, |b|);
    ClientHello.PutElsewhere(b1, 3, f, 43, |b|);
    ClientHello.PutElsewhere(b2, 6, g, 43, |b|);
    ClientHello.PutReads(b1, 3, f);
    ClientHello.PutElsewhere(b2, 6, g, 3, 5);
  }

  lemma PatchedBytes(t: seq<byte>, session: seq<byte>, random: seq<byte>)
    requires |t| >= 44 && t[0] == HELLO && |t| >= 44 + t[43] as nat && |session| == 255 && |random| == 32
    requires 0 <= U16At(t, 3) + 255 - t[43] as nat <= U16_MAX
    ensures var out := Patched(t, session, random);
      && |out| == |t| + 255 - t[43] as nat && out[0] == HELLO && out[43] == 255
      && U16At(out, 3) == U16At(t, 3) + 255 - t[43] as nat
      && forall i :: 0 <= i < 255 ==> out[44 + i] == session[i]
  {
    hide Put, Spliced, U24At, U24Bytes, U16At, U16Bytes, At;
    var diff := 255 - t[43] as nat;
    var b, n := Spliced(t, session), U16At(t, 3) + diff;
    var g := U24Bytes(Clamped(U24At(t, 6) + diff, 0xFF_FFFF));
    SplicedBytes(t, session);
    PutsKeep(b, random, U16Bytes(n), g);
    var out := Patched(t, session, random);
    SliceIsAt(out, 3, U16Bytes(n));
    U16Stands(out, 3, n);
    forall i | 0 <= i < 255
      ensures out[44 + i] == session[i]
    {
      assert out[44 + i] == out[43..][i + 1] == b[43..][i + 1];
    }
    assert out[43] == out[43..][0] == b[43..][0];
  }

  lemma SliceIsAt(b: seq<byte>, off: nat, e: seq<byte>)
    requires off + |e| <= |b| && b[off..off + |e|] == e
    ensures At(b, off, e)
  {
  }

  /** Alerts all over, but for the length of a record that would start right in front. */
  function AlertSession(e: nat): (s: seq<byte>)
    ensures |s| == 255 && forall i :: 0 <= i < 255 ==> s[i] == if e == 43 && 2 <= i <= 3 then 0 else ALERT
  {
    seq(255, i => if e == 43 && 2 <= i <= 3 then 0 else ALERT)
  }

  /** A session id that makes the client see an alert where the first record now ends. */
  lemma BreaksShortHello(t: seq<byte>, random: seq<byte>) returns (session: seq<byte>)
    requires |t| >= 44 && |t| >= 44 + t[43] as nat && t[0] == HELLO && |random| == 32
    requires 38 <= U16At(t, 3) < 39 + t[43] as nat
    ensures |session| == 255 && Reading(Patched(t, session, random), 0, NOTHING).Err?
  {
    hide U16At, Patched, Reading, RandomIn, CipherIn, AlertSession;
    var e := 5 + U16At(t, 3) + 255 - t[43] as nat;
    session := AlertSession(e);
    PatchedBytes(t, session, random);
    var out := Patched(t, session, random);
    AfterHello(out, e);
    var p := Progress(true, false, false, RandomIn(out[5..e]), CipherIn(out[5..e]));
    if e == 43 {
      assert out[46] == session[2] == 0 && out[47] == session[3] == 0 && out[48] == session[4] == ALERT;
      EmptyRecordAt(out, 43, p);
      AlertEnds(out, 48, p);
    } else {
      assert out[e] == session[e - 44] == ALERT;
      AlertEnds(out, e, p);
    }
  }

  lemma AfterHello(b: seq<byte>, e: nat)
    requires 43 <= e < |b| && b[0] == HELLO && U16At(b, 3) == e - 5
    ensures Reading(b, 0, NOTHING) == Reading(b, e, Progress(true, false, false, RandomIn(b[5..e]), CipherIn(b[5..e])))
  {
    hide U16At, RandomIn, CipherIn;
  }

  lemma EmptyRecordAt(b: seq<byte>, pos: nat, p: Progress)
    requires pos + 5 <= |b| && b[pos + 3] == 0 && b[pos + 4] == 0 && b[pos] == 255
    requires !(p.sh && p.ccs && p.enc)
    ensures Reading(b, pos, p) == Reading(b, pos + 5, p)
  {
    assert U16At(b, pos + 3) == 0;
  }

  lemma AlertEnds(b: seq<byte>, pos: nat, p: Progress)
    requires pos < |b| && b[pos] == ALERT
    ensures Reading(b, pos, p).Err?
  {
    hide U16At;
  }

  /**
   A usable template can be served to every client, whatever session id is echoed and random drawn, exactly if
   its first record holds all of its own session id or the flight is too short for the patch to touch it.
   */
  lemma PatchIsSafeExactly(rs: seq<Record>)
    requires Usable(rs)
    ensures |rs[0].body| >= 38 && |Flight(rs)| >= 44
    ensures var t := Flight(rs); var body := rs[0].body;
      (|t| < 44 + t[43] as nat || |body| >= 39 + t[43] as nat) <==>
      forall session, random :: Fits(t, body, session) && |random| == 32 && random != ZERO_RANDOM
        ==> Reading(Patched(t, session, random), 0, NOTHING).Ok?
  {
    var t, body := Flight(rs), rs[0].body;
    UsableSize(rs);
    FirstBytes(rs);
    hide Usable, Flight, HasKind, RandomIn, CipherIn, Reading;
    if |t| < 44 + t[43] as nat || |body| >= 39 + t[43] as nat {
      forall session, random | Fits(t, body, session) && |random| == 32 && random != ZERO_RANDOM
        ensures Reading(Patched(t, session, random), 0, NOTHING).Ok?
      {
        SafePatch(rs, session, random);
      }
    } else {
      var random: seq<byte> := seq(32, _ => 1);
      assert random[0] != ZERO_RANDOM[0];
      var session := BreaksShortHello(t, random);
      assert Fits(t, body, session);
    }
  }

  lemma UsableSize(rs: seq<Record>)
    requires Usable(rs)
    ensures rs != [] && |rs[0].body| >= 38 && |Flight(rs)| >= 48
  {
    var r, rest := rs[0], rs[1..];
    assert [r] + rest == rs;
    HasKindCons(r, rest, ENCRYPTED);
    assert rest != [];
    assert Flight(rest) == rest[0].Bytes() + Flight(rest[1..]);
    assert Flight(rs) == r.Bytes() + Flight(rest);
  }

  lemma SafePatch(rs: seq<Record>, session: seq<byte>, random: seq<byte>)
    requires Usable(rs) && |Flight(rs)| >= 44 && |rs[0].body| >= 38
    requires var t := Flight(rs); |t| < 44 + t[43] as nat || |rs[0].body| >= 39 + t[43] as nat
    requires Fits(Flight(rs), rs[0].body, session) && |random| == 32 && random != ZERO_RANDOM
    ensures Reading(Patched(Flight(rs), session, random), 0, NOTHING).Ok?
  {
    var t := Flight(rs);
    FirstBytes(rs);
    hide Flight, HasKind, RandomIn, CipherIn, Reading, Patched, Hello.Body, Put;
    if |t| < 44 + t[43] as nat {
      Untouched(t, session, random);
      UnpatchedAccepted(rs);
    } else {
      var h := BodyHasHello(rs[0].body);
      PatchedSize(h, session, random);
      TemplateServes(rs, h, session, random, None);
    }
  }

  lemma Untouched(t: seq<byte>, session: seq<byte>, random: seq<byte>)
    requires |random| == 32 && |t| >= 44 && |t| < 44 + t[43] as nat
    ensures Patched(t, session, random) == t
  {
  }

  lemma PatchedSize(h: Hello, session: seq<byte>, random: seq<byte>)
    requires h.Valid() && |random| == 32 && |session| <= 255 && |h.Body()| + |session| - |h.session| <= U16_MAX
    ensures PatchedHello(h, session, random).Valid()
  {
  }

  lemma UnpatchedAccepted(rs: seq<Record>)
    requires AllValid(rs) && HasAll(rs) && !HasKind(rs, ALERT) && rs != [] && rs[0].kind == HELLO
    requires RandomIn(rs[0].body) != ZERO_RANDOM
    ensures Complete(Flight(rs)) && Reading(Flight(rs), 0, NOTHING).Ok?
  {
    hide Flight, HasKind, Reading, RandomIn, CipherIn, Records;
    CompleteMeansFramed(Flight(rs));
    NoAlertKeepsAll(rs);
    ClientSucceedsExactly(rs);
  }
}
