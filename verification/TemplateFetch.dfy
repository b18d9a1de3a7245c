/**
 Capturing a template: the server reads another server's flight, record by record, until the three kinds are
 there. A read that ends early is taken for a timeout only if the other side stays silent; when it closes the
 connection, what is left is written over the old header and a body of zeros.
 */
module TemplateFetch {
  import opened Prelude
  import opened Bytes
  import opened ServerFlight

  /** What the other side does once it has sent everything. */
  datatype Ending = Silent | Closed

  datatype FetchError = TimedOut | Rejected | Unfinished

  const MAX_MORE := 8

  /** Reading as many bytes as into holds, from pos on. */
  function ReadExact(b: seq<byte>, pos: nat, into: seq<byte>, ending: Ending): (r: Option<seq<byte>>)
    requires pos <= |b|
    ensures r.Some? ==> |r.value| == |into|
  {
    if pos + |into| <= |b| then Some(b[pos..pos + |into|])
    else if ending.Silent? then None
    else Some(b[pos..] + into[|b| - pos..])
  }

  /** The fields of a record in front of its body. */
  function Header(r: Record): (h: seq<byte>)
    requires r.Valid()
    ensures |h| == 5 && r.Bytes() == h + r.body
  {
    [r.kind] + r.version + U16Bytes(|r.body|)
  }

  /** The record read at pos into the header of the last one. */
  function NextRecord(b: seq<byte>, pos: nat, header: seq<byte>, ending: Ending): (r: Option<Record>)
    requires pos <= |b| && |header| == 5
    ensures r.Some? ==> r.value.Valid()
  {
    var h :- ReadExact(b, pos, header, ending);
    var body :- ReadExact(b, Min(pos + 5, |b|), Zeros(U16At(h, 3)), ending);
    Some(Record(h[0], h[1..3], body))
  }

  lemma {:induction false} FlightAppend(rs: seq<Record>, more: seq<Record>)
    requires AllValid(rs) && AllValid(more)
    ensures AllValid(rs + more) && Flight(rs + more) == Flight(rs) + Flight(more)
  {
    if rs == [] {
      assert rs + more == more;
    } else {
      FlightAppend(rs[1..], more);
      assert (rs + more)[1..] == rs[1..] + more;
      AppendAssociates(rs[0].Bytes(), Flight(rs[1..]), Flight(more));
    }
  }

  lemma FlightSnoc(rs: seq<Record>, r: Record)
    requires AllValid(rs) && r.Valid()
    ensures AllValid(rs + [r]) && Flight(rs + [r]) == Flight(rs) + r.Bytes()
  {
    FlightAppend(rs, [r]);
    FlightCons(r, []);
    assert [r] + [] == [r];
  }

  /** The records taken after rs: at most n more, none once the three kinds are there. */
  function Taken(b: seq<byte>, rs: seq<Record>, n: nat, ending: Ending): (all: seq<Record>)
    requires rs != [] && AllValid(rs)
    decreases n
  {
    if n == 0 || HasAll(rs) then rs else
      match NextRecord(b, Min(|Flight(rs)|, |b|), Header(rs[|rs| - 1]), ending)
      case None => rs
      case Some(r) => Taken(b, rs + [r], n - 1, ending)
  }

  /** The records kept for a stream b, or why there are none. */
  function Captured(b: seq<byte>, ending: Ending): Result<seq<Record>, FetchError> {
    var h := ReadExact(b, 0, Zeros(5), ending);
    if h.None? then Err(TimedOut)
    else if h.value[0] != HELLO then Err(Rejected)
    else
      var first := NextRecord(b, 0, Zeros(5), ending);
      if first.None? then Err(TimedOut) else
        var rs := Taken(b, [first.value], MAX_MORE, ending);
        if HasAll(rs) then Ok(rs) else Err(Unfinished)
  }

  lemma HeaderStays(h: seq<byte>, body: seq<byte>)
    requires |h| == 5 && |body| == U16At(h, 3)
    ensures Header(Record(h[0], h[1..3], body)) == h
  {
    assert U16Bytes(|body|) == h[3..5];
  }

  lemma HeaderLength(r: Record)
    requires r.Valid()
    ensures U16At(Header(r), 3) == |r.body|
  {
  }

  /** A record read in two parts behind the flight of rs, which ended at pos or beyond the stream. */
  lemma ReadInParts(b: seq<byte>, pos: nat, rs: seq<Record>, header: seq<byte>, h: seq<byte>, body: seq<byte>,
                    ending: Ending)
    requires AllValid(rs) && pos == Min(|Flight(rs)|, |b|) && |header| == 5
    requires ReadExact(b, pos, header, ending) == Some(h)
    requires ReadExact(b, Min(pos + 5, |b|), Zeros(U16At(h, 3)), ending) == Some(body)
    ensures var r := Record(h[0], h[1..3], body);
      && r.Valid() && Header(r) == h && NextRecord(b, pos, header, ending) == Some(r)
      && AllValid(rs + [r]) && Flight(rs + [r]) == Flight(rs) + h + body
      && Min(Min(pos + 5, |b|) + |body|, |b|) == Min(|Flight(rs + [r])|, |b|)
  {
    hide ReadExact, U16At, Header, Flight;
    var r := Record(h[0], h[1..3], body);
    HeaderStays(h, body);
    FlightSnoc(rs, r);
    AppendAssociates(Flight(rs), h, body);
  }

  lemma TakenStep(b: seq<byte>, rs: seq<Record>, n: nat, ending: Ending)
    requires rs != [] && AllValid(rs) && n > 0 && !HasAll(rs)
    ensures Taken(b, rs, n, ending)
         == match NextRecord(b, Min(|Flight(rs)|, |b|), Header(rs[|rs| - 1]), ending)
              case None => rs
              case Some(r) => Taken(b, rs + [r], n - 1, ending)
  {
  }

  method FetchServerHello(b: seq<byte>, ending: Ending) returns (t: Result<seq<byte>, FetchError>)
    ensures match Captured(b, ending)
      case Err(e) => t == Err(e)
      case Ok(rs) => AllValid(rs) && t == Ok(Flight(rs))
  {
    hide HasAll, Complete, ReadExact, Header, U16At, Taken, Flight, Records;
    var start := ReadExact(b, 0, Zeros(5), ending);
    if start.None? {
      return Err(TimedOut);
    }
    var header := start.value;
    if header[0] != HELLO {
      return Err(Rejected);
    }
    var pos := Min(5, |b|);
    var body := ReadExact(b, pos, Zeros(U16At(header, 3)), ending);
    if body.None? {
      return Err(TimedOut);
    }
    var buf := header + body.value;
    pos := Min(pos + |body.value|, |b|);
    EmptyFlight();
    ReadInParts(b, 0, [], Zeros(5), header, body.value, ending);
    ghost var rs := [Record(header[0], header[1..3], body.value)];
    ghost var first := rs;
    assert [] + rs == rs && [] + header + body.value == buf;
    for i := 0 to MAX_MORE
      invariant rs != [] && AllValid(rs) && buf == Flight(rs)
      invariant header == Header(rs[|rs| - 1]) && pos == Min(|buf|, |b|)
      invariant Taken(b, first, MAX_MORE, ending) == Taken(b, rs, MAX_MORE - i, ending)
    {
      FlightIsComplete(rs);
      var complete := TemplateIsComplete(buf);
      if complete {
        TakenEnds(b, rs, MAX_MORE - i, ending);
        break;
      }
      TakenStep(b, rs, MAX_MORE - i, ending);
      var next := ReadExact(b, pos, header, ending);
      if next.None? {
        break;
      }
      var rest := ReadExact(b, Min(pos + 5, |b|), Zeros(U16At(next.value, 3)), ending);
      if rest.None? {
        break;
      }
      ReadInParts(b, pos, rs, header, next.value, rest.value, ending);
      rs := rs + [Record(next.value[0], next.value[1..3], rest.value)];
      header := next.value;
      buf := buf + header + rest.value;
      pos := Min(Min(pos + 5, |b|) + |rest.value|, |b|);
    }
    assert Taken(b, first, MAX_MORE, ending) == rs by {
      TakenEnds(b, rs, 0, ending);
    }
    FlightIsComplete(rs);
    var complete := TemplateIsComplete(buf);
    t := if complete then Ok(buf) else Err(Unfinished);
  }

  lemma EmptyFlight()
    ensures Flight([]) == []
  {
  }

  lemma TakenEnds(b: seq<byte>, rs: seq<Record>, n: nat, ending: Ending)
    requires rs != [] && AllValid(rs) && (n == 0 || HasAll(rs))
    ensures Taken(b, rs, n, ending) == rs
  {
  }

  /** Why there is no template, told by what the other side sent. */
  lemma CaptureRefused(b: seq<byte>, ending: Ending)
    ensures ending.Silent? && |b| < 5 ==> Captured(b, ending) == Err(TimedOut)
    ensures b == [] && ending.Closed? ==> Captured(b, ending) == Err(Rejected)
    ensures |b| >= 5 && b[0] != 0x16 ==> Captured(b, ending) == Err(Rejected)
    ensures |b| >= 5 && b[0] == 0x16 && |b| < 5 + U16At(b, 3) && ending.Silent? ==>
      Captured(b, ending) == Err(TimedOut)
    ensures |b| >= 5 && b[0] == 0x16 && |b| >= 5 + U16At(b, 3) ==>
      Captured(b, ending).Ok? || Captured(b, ending) == Err(Unfinished)
  {
    hide Taken, HasAll;
  }

  // ---- What a template is ----------------------------------------------------------------------

  lemma {:induction false} TakenStops(b: seq<byte>, rs: seq<Record>, n: nat, ending: Ending)
    requires rs != [] && AllValid(rs)
    ensures var all := Taken(b, rs, n, ending);
      && AllValid(all) && rs <= all && |all| <= |rs| + n
      && (|all| > |rs| ==> !HasAll(all[..|all| - 1]))
    decreases n
  {
    hide HasAll, NextRecord, Header, Flight;
    if n > 0 && !HasAll(rs) {
      var next := NextRecord(b, Min(|Flight(rs)|, |b|), Header(rs[|rs| - 1]), ending);
      if next.Some? {
        var more := rs + [next.value];
        TakenStops(b, more, n - 1, ending);
        assert more[..|rs|] == rs;
        var all := Taken(b, more, n - 1, ending);
        if |all| == |more| {
          assert all[..|more|] == more && all[..|rs|] == rs;
        }
      }
    }
  }

  lemma {:induction false} AlertCuts(rs: seq<Record>, i: nat)
    requires i < |rs| && rs[i].kind == ALERT
    ensures |UpToAlert(rs)| <= i && UpToAlert(rs) <= rs
  {
    if rs[0].kind != ALERT {
      AlertCuts(rs[1..], i - 1);
      assert [rs[0]] + rs[1..] == rs;
    }
  }

  lemma PrefixHasLess(us: seq<Record>, vs: seq<Record>)
    requires us <= vs && HasAll(us)
    ensures HasAll(vs)
  {
    forall kind | HasKind(us, kind)
      ensures HasKind(vs, kind)
    {
      var i :| 0 <= i < |us| && us[i].kind == kind;
      assert vs[i] == us[i];
    }
  }

  /** No kind but the last record's is missing before it, so an alert can only stand before one of the three. */
  lemma AlertLeavesIncomplete(rs: seq<Record>)
    requires rs != [] && HasAll(rs) && !HasAll(rs[..|rs| - 1])
    ensures HasAll(UpToAlert(rs)) <==> !HasKind(rs, ALERT)
  {
    hide HasAll;
    if HasKind(rs, ALERT) {
      var i :| 0 <= i < |rs| && rs[i].kind == ALERT;
      AlertCuts(rs, i);
      if HasAll(UpToAlert(rs)) {
        PrefixHasLess(UpToAlert(rs), rs[..|rs| - 1]);
      }
    } else {
      NoAlertKeepsAll(rs);
    }
  }

  /** A flight as the capture stops at: at most nine records, a hello first, the three kinds together with the last. */
  predicate Minimal(rs: seq<Record>) {
    && AllValid(rs) && rs != [] && |rs| <= 9 && rs[0].kind == HELLO
    && HasAll(rs) && !HasAll(rs[..|rs| - 1])
  }

  /**
   A template is at most nine records, the first a hello, the last the first to bring the three kinds together.
   The client accepts it exactly if none of them is an alert and the random of the hello is usable.
   */
  lemma TemplateIsAcceptedExactly(b: seq<byte>, ending: Ending)
    requires Captured(b, ending).Ok?
    ensures var rs := Captured(b, ending).value;
      && Minimal(rs) && |rs| >= 3 && Complete(Flight(rs))
      && (Reading(Flight(rs), 0, NOTHING).Ok? <==> !HasKind(rs, ALERT) && RandomIn(rs[0].body) != ZERO_RANDOM)
  {
    hide Taken, Complete, Reading, RandomIn, HasKind, Flight, HasAll;
    var rs := Captured(b, ending).value;
    var first := NextRecord(b, 0, Zeros(5), ending).value;
    TakenStops(b, [first], MAX_MORE, ending);
    AllTakesThree(rs);
    assert rs[0] == first;
    AlertLeavesIncomplete(rs);
    HelloFlightAccepted(rs);
  }

  lemma AllTakesThree(rs: seq<Record>)
    requires HasAll(rs)
    ensures |rs| >= 3
  {
    var i :| 0 <= i < |rs| && rs[i].kind == HELLO;
    var j :| 0 <= j < |rs| && rs[j].kind == CIPHER_SPEC;
    var k :| 0 <= k < |rs| && rs[k].kind == ENCRYPTED;
    assert i != j && j != k && i != k;
  }

  // ---- What is captured ------------------------------------------------------------------------

  lemma PresentRecordIsNext(b: seq<byte>, pos: nat, header: seq<byte>, r: Record, ending: Ending)
    requires r.Valid() && At(b, pos, r.Bytes()) && |header| == 5
    ensures NextRecord(b, pos, header, ending) == Some(r)
  {
    AtSplits(b, pos, Header(r), r.body);
    HeaderLength(r);
    var h := Header(r);
    assert h[0] == r.kind && h[1..3] == r.version;
  }

  lemma NextOfFlight(b: seq<byte>, rs: seq<Record>, k: nat, header: seq<byte>, ending: Ending)
    requires AllValid(rs) && At(b, 0, Flight(rs)) && k < |rs| && |header| == 5
    ensures |Flight(rs[..k])| <= |b| && NextRecord(b, |Flight(rs[..k])|, header, ending) == Some(rs[k])
  {
    hide NextRecord, Flight, At;
    var front, r, rest := rs[..k], rs[k], rs[k + 1..];
    assert front + rs[k..] == rs && [r] + rest == rs[k..];
    FlightAppend(front, rs[k..]);
    FlightCons(r, rest);
    AtSplits(b, 0, Flight(front), Flight(rs[k..]));
    AtSplits(b, |Flight(front)|, r.Bytes(), Flight(rest));
    FrontFits(b, Flight(front));
    PresentRecordIsNext(b, |Flight(front)|, header, r, ending);
  }

  lemma FrontFits(b: seq<byte>, e: seq<byte>)
    requires At(b, 0, e)
    ensures |e| <= |b|
  {
  }

  lemma {:induction false} TakesFlight(b: seq<byte>, rs: seq<Record>, k: nat, n: nat, ending: Ending)
    requires AllValid(rs) && At(b, 0, Flight(rs)) && 1 <= k <= |rs| && |rs| <= k + n
    requires HasAll(rs) && !HasAll(rs[..|rs| - 1])
    ensures Taken(b, rs[..k], n, ending) == rs
    decreases n
  {
    hide At, HasAll, NextRecord, Header, Flight, Taken;
    var us := rs[..k];
    if k == |rs| {
      assert us == rs;
      TakenEnds(b, us, n, ending);
    } else {
      PrefixHasLess'(us, rs[..|rs| - 1]);
      TakenStep(b, us, n, ending);
      NextOfFlight(b, rs, k, Header(us[k - 1]), ending);
      assert us + [rs[k]] == rs[..k + 1];
      TakesFlight(b, rs, k + 1, n - 1, ending);
    }
  }

  lemma PrefixHasLess'(us: seq<Record>, vs: seq<Record>)
    requires us <= vs && !HasAll(vs)
    ensures !HasAll(us)
  {
    if HasAll(us) {
      PrefixHasLess(us, vs);
    }
  }

  /** A stream that begins with such a flight yields it, whatever follows and however the stream ends. */
  lemma FlightIsCaptured(rs: seq<Record>, rest: seq<byte>, ending: Ending)
    requires Minimal(rs)
    ensures Captured(Flight(rs) + rest, ending) == Ok(rs)
  {
    hide Taken, HasAll, NextRecord, Flight;
    var b := Flight(rs) + rest;
    assert b[0..|Flight(rs)|] == Flight(rs);
    EmptyFlight();
    assert rs[..0] == [] && rs[..1] == [rs[0]];
    NextOfFlight(b, rs, 0, Zeros(5), ending);
    KindIsFirst(b, Zeros(5), ending);
    TakesFlight(b, rs, 1, MAX_MORE, ending);
  }

  lemma KindIsFirst(b: seq<byte>, header: seq<byte>, ending: Ending)
    requires |header| == 5 && NextRecord(b, 0, header, ending).Some?
    ensures var h := ReadExact(b, 0, header, ending);
      h.Some? && h.value[0] == NextRecord(b, 0, header, ending).value.kind
  {
  }

  /** An alert behind the hello is cached with the rest, and ends the handshake of every client served by it. */
  lemma AlertIsCached(hello: Record, alert: Record, spec: Record, encrypted: Record, ending: Ending)
    requires hello.kind == HELLO && alert.kind == ALERT && spec.kind == CIPHER_SPEC && encrypted.kind == ENCRYPTED
    requires AllValid([hello, alert, spec, encrypted])
    ensures var rs := [hello, alert, spec, encrypted];
      Captured(Flight(rs), ending) == Ok(rs) && Reading(Flight(rs), 0, NOTHING) == Err(Alerted)
  {
    hide Captured, Flight, Reading;
    var rs := [hello, alert, spec, encrypted];
    assert rs[0] == hello && rs[2] == spec && rs[3] == encrypted;
    var front := rs[..3];
    assert front == [hello, alert, spec];
    FlightIsCaptured(rs, [], ending);
    assert Flight(rs) + [] == Flight(rs);
    assert Flight(rs)[0..0 + |Flight(rs)|] == Flight(rs);
    assert ReadList(rs, NOTHING) == Err(Alerted);
    ReadsList(Flight(rs), 0, rs, NOTHING);
  }

  // ---- Records nobody sent ---------------------------------------------------------------------

  lemma ReadFull(b: seq<byte>, pos: nat, into: seq<byte>, ending: Ending)
    requires pos <= |b| && ReadExact(b, pos, into, ending).Some?
    ensures ending.Silent? ==> pos + |into| <= |b|
    ensures pos + |into| <= |b| ==> b[..pos] + ReadExact(b, pos, into, ending).value == b[..pos + |into|]
  {
  }

  lemma OneMore(b: seq<byte>, rs: seq<Record>, header: seq<byte>, ending: Ending)
    requires AllValid(rs) && |header| == 5
    requires NextRecord(b, Min(|Flight(rs)|, |b|), header, ending).Some?
    ensures var more := rs + [NextRecord(b, Min(|Flight(rs)|, |b|), header, ending).value];
      && AllValid(more)
      && (Flight(rs) <= b || |Flight(rs)| > |b| ==> Flight(more) <= b || |Flight(more)| > |b|)
      && (Flight(rs) <= b && ending.Silent? ==> Flight(more) <= b)
  {
    hide Flight, ReadExact, U16At, AllValid;
    var pos := Min(|Flight(rs)|, |b|);
    var h := ReadExact(b, pos, header, ending).value;
    var zeros := Zeros(U16At(h, 3));
    var body := ReadExact(b, Min(pos + 5, |b|), zeros, ending).value;
    ReadInParts(b, pos, rs, header, h, body, ending);
    ReadFull(b, pos, header, ending);
    ReadFull(b, Min(pos + 5, |b|), zeros, ending);
    var now := Flight(rs) + h + body;
    if Flight(rs) <= b && |now| <= |b| {
      PrefixIs(Flight(rs), b);
      assert now == b[..|now|];
    }
  }

  lemma PrefixIs(a: seq<byte>, b: seq<byte>)
    requires a <= b
    ensures b[..|a|] == a
  {
  }

  lemma {:induction false} TakenFromStream(b: seq<byte>, rs: seq<Record>, n: nat, ending: Ending)
    requires rs != [] && AllValid(rs)
    requires Flight(rs) <= b || |Flight(rs)| > |b|
    ensures var all := Taken(b, rs, n, ending);
      && AllValid(all) && (Flight(all) <= b || |Flight(all)| > |b|)
      && (Flight(rs) <= b && ending.Silent? ==> Flight(all) <= b)
    decreases n
  {
    hide HasAll, NextRecord, Header, Flight;
    if n > 0 && !HasAll(rs) {
      var next := NextRecord(b, Min(|Flight(rs)|, |b|), Header(rs[|rs| - 1]), ending);
      if next.Some? {
        OneMore(b, rs, Header(rs[|rs| - 1]), ending);
        TakenFromStream(b, rs + [next.value], n - 1, ending);
      }
    }
  }

  /** The stream begins with that flight, all of it. */
  predicate BeginsWith(b: seq<byte>, us: seq<Record>) {
    Minimal(us) && Flight(us) <= b
  }

  /**
   A template is what the other side sent exactly if the stream begins with such a flight, as it always does
   when the other side stays silent; and then the template is that flight.
   */
  lemma TemplateWasSentExactly(b: seq<byte>, ending: Ending)
    requires Captured(b, ending).Ok?
    ensures var rs := Captured(b, ending).value;
      && AllValid(rs)
      && (Flight(rs) <= b <==> exists us :: BeginsWith(b, us))
      && (forall us :: BeginsWith(b, us) ==> us == rs)
      && (ending.Silent? ==> Flight(rs) <= b)
  {
    hide Captured, Flight, Minimal;
    TemplateIsAcceptedExactly(b, ending);
    SilentTemplateWasSent(b, ending);
    var rs := Captured(b, ending).value;
    assert Flight(rs) <= b ==> BeginsWith(b, rs);
    forall us | BeginsWith(b, us)
      ensures us == rs
    {
      PrefixIsCaptured(b, us, ending);
    }
  }

  lemma PrefixIsCaptured(b: seq<byte>, us: seq<Record>, ending: Ending)
    requires BeginsWith(b, us)
    ensures Captured(b, ending) == Ok(us)
  {
    hide Captured, Flight, HasAll;
    var rest := b[|Flight(us)|..];
    assert b == Flight(us) + rest;
    FlightIsCaptured(us, rest, ending);
  }

  lemma SilentTemplateWasSent(b: seq<byte>, ending: Ending)
    requires Captured(b, ending).Ok?
    ensures var rs := Captured(b, ending).value;
      AllValid(rs) && (ending.Silent? ==> Flight(rs) <= b)
  {
    hide NextRecord, Taken, HasAll, Flight;
    var first := NextRecord(b, 0, Zeros(5), ending).value;
    EmptyFlight();
    OneMore(b, [], Zeros(5), ending);
    assert [] + [first] == [first];
    TakenFromStream(b, [first], MAX_MORE, ending);
  }

  /**
   A connection closed after the first byte of the third record leaves a template with a record of zeros that
   nobody sent: the kind is new, the rest of the header is the second record's.
   */
  lemma ClosedStreamInventsRecord(hello: Record, spec: Record)
    requires hello.kind == HELLO && spec.kind == CIPHER_SPEC && AllValid([hello, spec])
    ensures var rs := [hello, spec, Record(ENCRYPTED, spec.version, Zeros(|spec.body|))];
      && Captured(Flight([hello, spec]) + [ENCRYPTED], Closed) == Ok(rs)
      && AllValid(rs) && Complete(Flight(rs))
  {
    hide Flight, Complete, At, NextRecord, ReadExact, Header, Taken, HasAll;
    var two := [hello, spec];
    assert two[1].Valid();
    var made := Record(ENCRYPTED, spec.version, Zeros(|spec.body|));
    var b := Flight(two) + [ENCRYPTED];
    Middle([], Flight(two), [ENCRYPTED]);
    assert [] + Flight(two) + [ENCRYPTED] == b;
    TwoTaken(b, hello, spec, Closed);
    InventedIsNext(b, |Flight(two)|, spec);
    TakenStep(b, two, MAX_MORE - 1, Closed);
    var rs := two + [made];
    assert rs == [hello, spec, made];
    ThreeKinds(hello, spec, made);
    TakenEnds(b, rs, MAX_MORE - 2, Closed);
    FlightIsComplete(rs);
  }

  lemma TwoTaken(b: seq<byte>, hello: Record, spec: Record, ending: Ending)
    requires hello.kind == HELLO && spec.kind == CIPHER_SPEC && AllValid([hello, spec])
    requires At(b, 0, Flight([hello, spec]))
    ensures var h := ReadExact(b, 0, Zeros(5), ending); h.Some? && h.value[0] == HELLO
    ensures NextRecord(b, 0, Zeros(5), ending) == Some(hello)
    ensures Taken(b, [hello], MAX_MORE, ending) == Taken(b, [hello, spec], MAX_MORE - 1, ending)
    ensures !HasAll([hello, spec])
  {
    hide Flight, NextRecord, Header, Taken, At;
    var two := [hello, spec];
    EmptyFlight();
    assert two[..0] == [] && two[..1] == [hello] && [hello] + [spec] == two;
    NextOfFlight(b, two, 0, Zeros(5), ending);
    KindIsFirst(b, Zeros(5), ending);
    NextOfFlight(b, two, 1, Header(hello), ending);
    TakenStep(b, [hello], MAX_MORE, ending);
  }

  lemma HeaderFields(r: Record)
    requires r.Valid()
    ensures var h := Header(r);
      h[0] == r.kind && h[1..] == r.version + U16Bytes(|r.body|) && h[1..3] == r.version && U16At(h, 3) == |r.body|
  {
    HeaderLength(r);
  }

  lemma InventedIsNext(b: seq<byte>, pos: nat, spec: Record)
    requires spec.Valid() && pos + 1 == |b| && b[pos] == ENCRYPTED
    ensures NextRecord(b, pos, Header(spec), Closed)
         == Some(Record(ENCRYPTED, spec.version, Zeros(|spec.body|)))
  {
    hide U16At, U16Bytes;
    var made := Record(ENCRYPTED, spec.version, Zeros(|spec.body|));
    HeaderFields(spec);
    HeaderFields(made);
    assert b[pos..] + Header(spec)[1..] == Header(made);
    assert b[pos + 1..] + made.body[0..] == made.body;
  }
}
