/**
 The server's handshake flight: when a captured template is complete, and what the client that reads the flight
 makes of it.
 */
module ServerFlight {
  import opened Prelude
  import opened Bytes

  const HELLO: byte := 0x16
  const CIPHER_SPEC: byte := 0x14
  const ENCRYPTED: byte := 0x17
  const ALERT: byte := 0x15

  // ---- Records ---------------------------------------------------------------------------------

  datatype Record = Record(kind: byte, version: seq<byte>, body: seq<byte>) {
    predicate Valid() {
      |version| == 2 && |body| <= U16_MAX
    }

    function Bytes(): (b: seq<byte>)
      requires Valid()
      ensures |b| == 5 + |body|
    {
      [kind] + version + U16Bytes(|body|) + body
    }
  }

  predicate AllValid(rs: seq<Record>) {
    forall i :: 0 <= i < |rs| ==> rs[i].Valid()
  }

  function Flight(rs: seq<Record>): seq<byte>
    requires AllValid(rs)
  {
    if rs == [] then [] else rs[0].Bytes() + Flight(rs[1..])
  }

  lemma FlightCons(r: Record, rest: seq<Record>)
    requires r.Valid() && AllValid(rest)
    ensures AllValid([r] + rest) && Flight([r] + rest) == r.Bytes() + Flight(rest)
  {
    var all := [r] + rest;
    assert all[1..] == rest;
  }

  /** The record at pos, if all of it is there. */
  function RecordAt(b: seq<byte>, pos: nat): (r: Option<Record>)
    ensures r.Some? ==> r.value.Valid() && pos + 5 + |r.value.body| <= |b|
  {
    if pos + 5 > |b| || pos + 5 + U16At(b, pos + 3) > |b| then None
    else Some(Record(b[pos], b[pos + 1..pos + 3], b[pos + 5..pos + 5 + U16At(b, pos + 3)]))
  }

  /** The records from pos on, if they fill the rest exactly. */
  function Records(b: seq<byte>, pos: nat): (rs: Option<seq<Record>>)
    requires pos <= |b|
    ensures rs.Some? ==> AllValid(rs.value)
    decreases |b| - pos
  {
    if pos == |b| then Some([]) else
      var r :- RecordAt(b, pos);
      var rest :- Records(b, pos + 5 + |r.body|);
      Some([r] + rest)
  }

  predicate HasKind(rs: seq<Record>, kind: byte) {
    exists i :: 0 <= i < |rs| && rs[i].kind == kind
  }

  predicate HasAll(rs: seq<Record>) {
    HasKind(rs, HELLO) && HasKind(rs, CIPHER_SPEC) && HasKind(rs, ENCRYPTED)
  }

  predicate Complete(t: seq<byte>) {
    Records(t, 0).Some? && HasAll(Records(t, 0).value)
  }

  /** The three kinds by their numbers: handshake, change of cipher spec and application data. */
  lemma KindsSpelled(rs: seq<Record>)
    ensures HasAll(rs) <==>
      && (exists i :: 0 <= i < |rs| && rs[i].kind == 0x16)
      && (exists i :: 0 <= i < |rs| && rs[i].kind == 0x14)
      && (exists i :: 0 <= i < |rs| && rs[i].kind == 0x17)
  {
  }

  method TemplateIsComplete(t: seq<byte>) returns (complete: bool)
    ensures complete == Complete(t)
  {
    hide U16At;
    var pos: nat := 0;
    var sh, ccs, enc := false, false, false;
    ghost var rs: seq<Record> := [];
    ghost var all := Records(t, 0);
    assert all.Some? ==> rs + all.value == all.value;
    while pos + 5 <= |t|
      invariant pos <= |t|
      invariant sh == HasKind(rs, HELLO) && ccs == HasKind(rs, CIPHER_SPEC) && enc == HasKind(rs, ENCRYPTED)
      invariant Records(t, 0) == match Records(t, pos)
        case None => None
        case Some(rest) => Some(rs + rest)
      decreases |t| - pos
    {
      var kind, len := t[pos], U16At(t, pos + 3);
      if pos + 5 + len > |t| {
        return false;
      }
      ghost var r := RecordAt(t, pos).value;
      ghost var rest := Records(t, pos + 5 + len);
      if rest.Some? {
        AppendAssociates(rs, [r], rest.value);
      }
      KindsSnoc(rs, r);
      if kind == HELLO {
        sh := true;
      } else if kind == CIPHER_SPEC {
        ccs := true;
      } else if kind == ENCRYPTED {
        enc := true;
      }
      rs := rs + [r];
      pos := pos + 5 + len;
    }
    assert rs + [] == rs;
    complete := pos == |t| && sh && ccs && enc;
  }

  lemma KindsSnoc(rs: seq<Record>, r: Record)
    ensures forall k :: HasKind(rs + [r], k) <==> HasKind(rs, k) || r.kind == k
  {
    forall k
      ensures HasKind(rs + [r], k) <==> HasKind(rs, k) || r.kind == k
    {
      assert (rs + [r])[|rs|] == r;
      if i :| 0 <= i < |rs| && rs[i].kind == k {
        assert (rs + [r])[i].kind == k;
      }
    }
  }

  lemma ThreeKinds(hello: Record, spec: Record, encrypted: Record)
    requires hello.kind == HELLO && spec.kind == CIPHER_SPEC && encrypted.kind == ENCRYPTED
    ensures HasAll([hello, spec, encrypted]) && !HasKind([hello, spec, encrypted], ALERT)
  {
    var rs := [hello, spec, encrypted];
    assert rs[0] == hello && rs[1] == spec && rs[2] == encrypted;
  }

  lemma RecordReads(b: seq<byte>, pos: nat, r: Record)
    requires r.Valid() && At(b, pos, r.Bytes())
    ensures RecordAt(b, pos) == Some(r)
  {
    AtSplits(b, pos, [r.kind] + r.version + U16Bytes(|r.body|), r.body);
    AtSplits(b, pos, [r.kind] + r.version, U16Bytes(|r.body|));
    AtSplits(b, pos, [r.kind], r.version);
    U16Stands(b, pos + 3, |r.body|);
    FirstAt(b, pos, [r.kind]);
  }

  lemma {:induction false} FlightReads(b: seq<byte>, pos: nat, rs: seq<Record>)
    requires AllValid(rs) && At(b, pos, Flight(rs)) && pos + |Flight(rs)| == |b|
    ensures Records(b, pos) == Some(rs)
    decreases |rs|
  {
    hide At, RecordAt;
    if rs != [] {
      AtSplits(b, pos, rs[0].Bytes(), Flight(rs[1..]));
      RecordReads(b, pos, rs[0]);
      FlightReads(b, pos + 5 + |rs[0].body|, rs[1..]);
      assert [rs[0]] + rs[1..] == rs;
    }
  }

  /** A template is complete exactly if it is some records, back to back, with the three kinds among them. */
  lemma CompleteMeansFramed(t: seq<byte>)
    ensures Complete(t) <==> exists rs :: AllValid(rs) && t == Flight(rs) && HasAll(rs)
  {
    hide HasAll;
    if Complete(t) {
      RecordsMakeFlight(t, 0);
      assert t[0..] == t;
    }
    if rs :| AllValid(rs) && t == Flight(rs) && HasAll(rs) {
      FlightReads(t, 0, rs);
    }
  }

  lemma RecordIsSlice(b: seq<byte>, pos: nat)
    requires RecordAt(b, pos).Some?
    ensures var r := RecordAt(b, pos).value; b[pos..] == r.Bytes() + b[pos + 5 + |r.body|..]
  {
    var r := RecordAt(b, pos).value;
    var v := U16At(b, pos + 3);
    assert U16Bytes(v) == b[pos + 3..pos + 5];
    assert r.Bytes() == b[pos..pos + 5 + |r.body|];
  }

  lemma {:induction false} RecordsMakeFlight(b: seq<byte>, pos: nat)
    requires pos <= |b| && Records(b, pos).Some?
    ensures b[pos..] == Flight(Records(b, pos).value)
    decreases |b| - pos
  {
    hide RecordAt;
    if pos < |b| {
      var r := RecordAt(b, pos).value;
      RecordIsSlice(b, pos);
      RecordsMakeFlight(b, pos + 5 + |r.body|);
      var rs := Records(b, pos).value;
      assert rs[0] == r && rs[1..] == Records(b, pos + 5 + |r.body|).value;
    }
  }

  // ---- The client ------------------------------------------------------------------------------

  datatype Handshake = Handshake(random: seq<byte>, cipher: u16)

  datatype Failure = Alerted | Incomplete | NoRandom

  const ZERO_RANDOM: seq<byte> := Zeros(32)

  /** What the first hello record yields: bytes 6 to 38 as the random, and the suite behind the session id. */
  function RandomIn(body: seq<byte>): seq<byte> {
    if |body| >= 38 then body[6..38] else ZERO_RANDOM
  }

  function CipherIn(body: seq<byte>): u16 {
    if |body| >= 39 && |body| >= 39 + body[38] as nat + 2 then U16At(body, 39 + body[38] as nat) else 0x1301
  }

  /** A random is usable if the hello is long enough to hold it and one of its bytes is not zero. */
  lemma UsableRandom(body: seq<byte>)
    ensures RandomIn(body) != ZERO_RANDOM <==> |body| >= 38 && exists i :: 6 <= i < 38 && body[i] != 0
    ensures |RandomIn(body)| == 32
  {
    if |body| >= 38 {
      var r := body[6..38];
      assert forall i :: 6 <= i < 38 ==> body[i] == r[i - 6];
      if forall i :: 6 <= i < 38 ==> body[i] == 0 {
        assert r == ZERO_RANDOM;
      }
      if i :| 6 <= i < 38 && body[i] != 0 {
        assert r[i - 6] != ZERO_RANDOM[i - 6];
      }
    }
  }

  datatype Progress = Progress(sh: bool, ccs: bool, enc: bool, random: seq<byte>, cipher: u16)

  function Noted(p: Progress, r: Record): Progress {
    if r.kind == HELLO then
      if p.sh then p else p.(sh := true, random := RandomIn(r.body), cipher := CipherIn(r.body))
    else if r.kind == CIPHER_SPEC then p.(ccs := true)
    else if r.kind == ENCRYPTED then p.(enc := true)
    else p
  }

  function Verdict(p: Progress): Result<Handshake, Failure> {
    if p.random == ZERO_RANDOM then Err(NoRandom) else Ok(Handshake(p.random, p.cipher))
  }

  /** The client on the stream b from pos, with what it has noted; the stream ends with b. */
  function Reading(b: seq<byte>, pos: nat, p: Progress): Result<Handshake, Failure>
    decreases |b| - pos
  {
    match RecordAt(b, pos)
    case None => Err(Incomplete)
    case Some(r) =>
      if r.kind == ALERT then Err(Alerted) else
        var q := Noted(p, r);
        if q.sh && q.ccs && q.enc then Verdict(q) else Reading(b, pos + 5 + |r.body|, q)
  }

  const NOTHING := Progress(false, false, false, ZERO_RANDOM, 0x1301)

  lemma NoMore(b: seq<byte>, pos: nat, p: Progress)
    requires RecordAt(b, pos).None?
    ensures Reading(b, pos, p) == Err(Incomplete)
  {
  }

  lemma ReadingStep(b: seq<byte>, pos: nat, p: Progress)
    requires pos + 5 <= |b| && pos + 5 + U16At(b, pos + 3) <= |b|
    ensures var len := U16At(b, pos + 3);
      var q := Noted(p, Record(b[pos], b[pos + 1..pos + 3], b[pos + 5..pos + 5 + len]));
      Reading(b, pos, p)
      == if b[pos] == ALERT then Err(Alerted)
         else if q.sh && q.ccs && q.enc then Verdict(q) else Reading(b, pos + 5 + len, q)
  {
  }

  method ReadServerHandshake(b: seq<byte>) returns (r: Result<Handshake, Failure>)
    ensures r == Reading(b, 0, NOTHING)
  {
    hide U16At, Reading;
    var sh, ccs, enc := false, false, false;
    var random, cipher := ZERO_RANDOM, 0x1301;
    var pos: nat := 0;
    while true
      invariant !sh ==> random == ZERO_RANDOM && cipher == 0x1301
      invariant Reading(b, 0, NOTHING) == Reading(b, pos, Progress(sh, ccs, enc, random, cipher))
      decreases |b| - pos
    {
      if pos + 5 > |b| {
        NoMore(b, pos, Progress(sh, ccs, enc, random, cipher));
        return Err(Incomplete);
      }
      var kind, len := b[pos], U16At(b, pos + 3);
      if pos + 5 + len > |b| {
        NoMore(b, pos, Progress(sh, ccs, enc, random, cipher));
        return Err(Incomplete);
      }
      ReadingStep(b, pos, Progress(sh, ccs, enc, random, cipher));
      var body := b[pos + 5..pos + 5 + len];
      pos := pos + 5 + len;
      if kind == ALERT {
        return Err(Alerted);
      } else if kind == HELLO {
        if !sh && |body| >= 38 {
          random := body[6..38];
          if |body| >= 39 {
            var sid := body[38] as nat;
            if |body| >= 39 + sid + 2 {
              cipher := U16At(body, 39 + sid);
            }
          }
        }
        sh := true;
      } else if kind == CIPHER_SPEC {
        ccs := true;
      } else if kind == ENCRYPTED {
        enc := true;
      }
      if sh && ccs && enc {
        if random == ZERO_RANDOM {
          return Err(NoRandom);
        }
        return Ok(Handshake(random, cipher));
      }
    }
  }

  // ---- When the client succeeds ----------------------------------------------------------------

  function ReadList(rs: seq<Record>, p: Progress): Result<Handshake, Failure> {
    if rs == [] then Err(Incomplete)
    else if rs[0].kind == ALERT then Err(Alerted)
    else
      var q := Noted(p, rs[0]);
      if q.sh && q.ccs && q.enc then Verdict(q) else ReadList(rs[1..], q)
  }

  /** Reading a flight is reading its records, whatever follows unless the records leave the client waiting. */
  lemma {:induction false} ReadsList(b: seq<byte>, pos: nat, rs: seq<Record>, p: Progress)
    requires AllValid(rs) && At(b, pos, Flight(rs))
    requires ReadList(rs, p) == Err(Incomplete) ==> pos + |Flight(rs)| == |b|
    ensures Reading(b, pos, p) == ReadList(rs, p)
    decreases |rs|
  {
    hide At, Noted, Verdict;
    if rs == [] {
      NoMore(b, pos, p);
    } else {
      AtSplits(b, pos, rs[0].Bytes(), Flight(rs[1..]));
      RecordReads(b, pos, rs[0]);
      var q := Noted(p, rs[0]);
      if rs[0].kind != ALERT && !(q.sh && q.ccs && q.enc) {
        ReadsList(b, pos + 5 + |rs[0].body|, rs[1..], q);
      }
    }
  }

  function UpToAlert(rs: seq<Record>): seq<Record> {
    if rs == [] || rs[0].kind == ALERT then [] else [rs[0]] + UpToAlert(rs[1..])
  }

  /** The records before the first whose kind is 0x15, or all of them. */
  lemma {:induction false} AlertsEndFlight(rs: seq<Record>)
    ensures var us := UpToAlert(rs);
      && us <= rs && (forall i :: 0 <= i < |us| ==> rs[i].kind != 0x15)
      && (|us| < |rs| ==> rs[|us|].kind == 0x15)
  {
    if rs != [] && rs[0].kind != ALERT {
      AlertsEndFlight(rs[1..]);
      var us := UpToAlert(rs);
      assert us == [rs[0]] + UpToAlert(rs[1..]);
      assert forall i :: 1 <= i < |rs| ==> rs[i] == rs[1..][i - 1];
    }
  }

  /** The body of the first hello record. */
  function FirstHello(rs: seq<Record>): Option<seq<byte>> {
    if rs == [] then None
    else if rs[0].kind == HELLO then Some(rs[0].body)
    else FirstHello(rs[1..])
  }

  lemma HasKindCons(r: Record, rs: seq<Record>, kind: byte)
    ensures HasKind([r] + rs, kind) <==> r.kind == kind || HasKind(rs, kind)
  {
    var all := [r] + rs;
    assert all[0] == r;
    if i :| 0 <= i < |rs| && rs[i].kind == kind {
      assert all[i + 1].kind == kind;
    }
    if i :| 0 <= i < |all| && all[i].kind == kind {
      assert i == 0 || rs[i - 1].kind == kind;
    }
  }

  /** What the progress amounts to once the records us have been read. */
  function After(p: Progress, us: seq<Record>): Progress {
    var body := FirstHello(us);
    Progress(p.sh || HasKind(us, HELLO), p.ccs || HasKind(us, CIPHER_SPEC), p.enc || HasKind(us, ENCRYPTED),
             if p.sh || body.None? then p.random else RandomIn(body.value),
             if p.sh || body.None? then p.cipher else CipherIn(body.value))
  }

  lemma {:induction false} HelloIsFirst(us: seq<Record>)
    ensures HasKind(us, HELLO) <==> FirstHello(us).Some?
  {
    if us != [] {
      HelloIsFirst(us[1..]);
      HasKindCons(us[0], us[1..], HELLO);
      assert [us[0]] + us[1..] == us;
    }
  }

  lemma AfterCons(p: Progress, r: Record, us: seq<Record>)
    ensures After(p, [r] + us) == After(Noted(p, r), us)
  {
    hide HasKind, RandomIn, CipherIn;
    HasKindCons(r, us, HELLO);
    HasKindCons(r, us, CIPHER_SPEC);
    HasKindCons(r, us, ENCRYPTED);
    assert ([r] + us)[1..] == us;
  }

  /** Once the three kinds are in, later records change nothing. */
  lemma AllSeen(p: Progress, us: seq<Record>)
    requires p.sh && p.ccs && p.enc
    ensures After(p, us) == p
  {
  }

  lemma {:induction false} ReadListExactly(rs: seq<Record>, p: Progress)
    requires !(p.sh && p.ccs && p.enc)
    ensures var q := After(p, UpToAlert(rs));
      ReadList(rs, p) == if q.sh && q.ccs && q.enc then Verdict(q)
        else if UpToAlert(rs) == rs then Err(Incomplete) else Err(Alerted)
    decreases |rs|
  {
    hide After, Noted, Verdict;
    if rs == [] || rs[0].kind == ALERT {
      AfterNone(p);
    } else {
      var q, us := Noted(p, rs[0]), UpToAlert(rs[1..]);
      AfterCons(p, rs[0], us);
      assert [rs[0]] + rs[1..] == rs;
      if q.sh && q.ccs && q.enc {
        AllSeen(q, us);
      } else {
        ReadListExactly(rs[1..], q);
        SameTail(rs[0], us, rs[1..]);
      }
    }
  }

  lemma AfterNone(p: Progress)
    ensures After(p, []) == p
  {
  }

  lemma SameTail(r: Record, us: seq<Record>, vs: seq<Record>)
    ensures [r] + us == [r] + vs <==> us == vs
  {
    assert ([r] + us)[1..] == us && ([r] + vs)[1..] == vs;
  }

  /**
   The client accepts a flight exactly if the records before the first alert have all three kinds and the first
   hello among them has a body of at least 38 bytes with a random that is not all zeros. It then holds that
   random and that hello's suite.
   */
  lemma ClientSucceedsExactly(rs: seq<Record>)
    requires AllValid(rs)
    ensures var us := UpToAlert(rs); var r := Reading(Flight(rs), 0, NOTHING);
      && (r.Ok? <==> HasAll(us) && FirstHello(us).Some? && RandomIn(FirstHello(us).value) != ZERO_RANDOM)
      && (r.Ok? ==> r.value == Handshake(RandomIn(FirstHello(us).value), CipherIn(FirstHello(us).value)))
  {
    hide RandomIn, CipherIn, HasKind;
    var us := UpToAlert(rs);
    assert Flight(rs)[0..0 + |Flight(rs)|] == Flight(rs);
    ReadsList(Flight(rs), 0, rs, NOTHING);
    ReadListExactly(rs, NOTHING);
    HelloIsFirst(us);
  }

  lemma {:induction false} NoAlertKeepsAll(rs: seq<Record>)
    requires !HasKind(rs, ALERT)
    ensures UpToAlert(rs) == rs
  {
    if rs != [] {
      HasKindCons(rs[0], rs[1..], ALERT);
      assert [rs[0]] + rs[1..] == rs;
      assert rs[0].kind != ALERT;
      NoAlertKeepsAll(rs[1..]);
    }
  }

  /** Without alerts, being complete is what the client needs, but for a usable random in the first hello. */
  lemma CompleteMeansAccepted(t: seq<byte>)
    requires Records(t, 0).Some? && !HasKind(Records(t, 0).value, ALERT)
    ensures var hello := FirstHello(Records(t, 0).value);
      Reading(t, 0, NOTHING).Ok?
      <==> Complete(t) && hello.Some? && RandomIn(hello.value) != ZERO_RANDOM
  {
    hide RandomIn, HasKind, HasAll;
    var rs := Records(t, 0).value;
    RecordsMakeFlight(t, 0);
    assert t[0..] == t;
    NoAlertKeepsAll(rs);
    ClientSucceedsExactly(rs);
  }

  lemma FirstIsHello(rs: seq<Record>)
    requires rs != [] && rs[0].kind == HELLO
    ensures FirstHello(rs) == FirstHello(UpToAlert(rs)) == Some(rs[0].body)
  {
    assert UpToAlert(rs)[0] == rs[0];
  }

  /**
   A flight that begins with a hello is complete if it has the three kinds, but the client accepts it exactly
   if they come before the first alert and the random of that hello is usable.
   */
  lemma HelloFlightAccepted(rs: seq<Record>)
    requires AllValid(rs) && rs != [] && rs[0].kind == HELLO
    ensures Complete(Flight(rs)) <==> HasAll(rs)
    ensures Reading(Flight(rs), 0, NOTHING).Ok?
         <==> HasAll(UpToAlert(rs)) && RandomIn(rs[0].body) != ZERO_RANDOM
  {
    hide HasAll, RandomIn, FirstHello, UpToAlert;
    FlightIsComplete(rs);
    ClientSucceedsExactly(rs);
    FirstIsHello(rs);
  }

  lemma FlightIsComplete(rs: seq<Record>)
    requires AllValid(rs)
    ensures Records(Flight(rs), 0) == Some(rs)
    ensures Complete(Flight(rs)) <==> HasAll(rs)
  {
    hide HasAll;
    assert Flight(rs)[0..0 + |Flight(rs)|] == Flight(rs);
    FlightReads(Flight(rs), 0, rs);
  }
}
