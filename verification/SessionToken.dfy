/**
 Session tokens: an eight-byte prefix, the masked timestamp and a tag. Verification recovers the
 timestamp, gates it by the clock and asks the replay cache; identification tries a list of passwords.
 */
module SessionToken {
  import opened Prelude
  import opened Bytes
  import opened ReplayCache

  type Password = seq<byte>

  /** HMAC-SHA256 and Poly1305 as arbitrary functions of the right output length. */
  datatype Primitives = Primitives(
    mask: (Password, seq<byte>) -> seq<byte>,
    tag: (Password, seq<byte>, seq<byte>, seq<byte>) -> seq<byte>)
  {
    ghost predicate Valid() {
      && (forall pw, prefix :: |mask(pw, prefix)| == 8)
      && (forall pw, ts, prefix, bind :: |tag(pw, ts, prefix, bind)| == 16)
    }
  }

  /** Exclusive or of the low `bits` bits. */
  function XorBits(a: nat, b: nat, bits: nat): nat {
    if bits == 0 then 0 else 2 * XorBits(a / 2, b / 2, bits - 1) + (a + b) % 2
  }

  lemma LowBit(x: nat, a: nat, b: nat)
    ensures var y := 2 * x + (a + b) % 2;
      y / 2 == x && (y + b) % 2 == a % 2
  {
    var y := 2 * x + (a + b) % 2;
    assert (y + b) % 2 == ((a + b) % 2 + b) % 2;
  }

  lemma {:induction false} XorBitsUndone(a: nat, b: nat, bits: nat, bound: nat)
    requires bound == Pow2(bits) && a < bound
    ensures XorBits(a, b, bits) < bound
    ensures XorBits(XorBits(a, b, bits), b, bits) == a
  {
    if bits > 0 {
      XorBitsUndone(a / 2, b / 2, bits - 1, bound / 2);
      LowBit(XorBits(a / 2, b / 2, bits - 1), a, b);
    }
  }

  function XorByte(a: byte, b: byte): byte {
    XorBitsUndone(a as int, b as int, 8, 256);
    XorBits(a as int, b as int, 8) as byte
  }

  function Bit(x: nat, i: nat): nat {
    if i == 0 then x % 2 else Bit(x / 2, i - 1)
  }

  lemma XorStep(a: nat, b: nat, bits: nat)
    requires bits > 0
    ensures XorBits(a, b, bits) / 2 == XorBits(a / 2, b / 2, bits - 1)
    ensures XorBits(a, b, bits) % 2 == if a % 2 == b % 2 then 0 else 1
  {
    var x, y := XorBits(a / 2, b / 2, bits - 1), XorBits(a, b, bits);
    assert y == 2 * x + (a + b) % 2;
    hide XorBits;
    DivModUnique(y, x, 2, (a + b) % 2);
    Parity(a, b);
  }

  lemma Parity(a: nat, b: nat)
    ensures (a + b) % 2 == if a % 2 == b % 2 then 0 else 1
  {
    var u, v := a % 2, b % 2;
    DivModUnique(a + b, a / 2 + b / 2 + (u + v) / 2, 2, (u + v) % 2);
  }

  lemma {:induction false} XorBitAt(a: nat, b: nat, bits: nat, i: nat)
    requires i < bits
    ensures Bit(XorBits(a, b, bits), i) == if Bit(a, i) == Bit(b, i) then 0 else 1
  {
    hide XorBits;
    XorStep(a, b, bits);
    if i > 0 {
      XorBitAt(a / 2, b / 2, bits - 1, i - 1);
    }
  }

  /** Each of the eight bits is set exactly if it differs in the two bytes. */
  lemma XorIsBitwise(a: byte, b: byte, i: nat)
    requires i < 8
    ensures Bit(XorByte(a, b) as int, i) == if Bit(a as int, i) == Bit(b as int, i) then 0 else 1
  {
    XorBitAt(a as int, b as int, 8, i);
  }

  function Xor(a: seq<byte>, b: seq<byte>): (r: seq<byte>)
    requires |a| == |b|
    ensures |r| == |a|
  {
    seq(|a|, i requires 0 <= i < |a| => XorByte(a[i], b[i]))
  }

  lemma XorUndone(a: seq<byte>, b: seq<byte>)
    requires |a| == |b|
    ensures Xor(Xor(a, b), b) == a
  {
    forall i | 0 <= i < |a|
      ensures Xor(Xor(a, b), b)[i] == a[i]
    {
      XorBitsUndone(a[i] as int, b[i] as int, 8, 256);
    }
  }

  method XorLoop(a: seq<byte>, b: seq<byte>) returns (r: seq<byte>)
    requires |a| == |b|
    ensures r == Xor(a, b)
    ensures forall i :: 0 <= i < |a| ==> r[i] == XorByte(a[i], b[i])
  {
    r := [];
    for i := 0 to |a|
      invariant r == Xor(a, b)[..i]
    {
      r := r + [XorByte(a[i], b[i])];
    }
  }

  type TokenBytes = t: seq<byte> | |t| == 32 witness seq(32, _ => 0)

  /** make_session_token with its random prefix and clock reading as parameters. */
  method MakeSessionToken(p: Primitives, pw: Password, bind: seq<byte>, prefix: seq<byte>, ts: u64)
    returns (token: TokenBytes)
    requires p.Valid() && |prefix| == 8
    ensures token == Token(p, pw, bind, prefix, ts)
    ensures token[..8] == prefix && token[16..] == p.tag(pw, U64Bytes(ts), prefix, bind)
    ensures Xor(token[8..16], p.mask(pw, prefix)) == U64Bytes(ts)
  {
    XorUndone(U64Bytes(ts), p.mask(pw, prefix));
    var tsBytes := U64Bytes(ts);
    var hidden := XorLoop(tsBytes, p.mask(pw, prefix));
    token := prefix + hidden + p.tag(pw, tsBytes, prefix, bind);
  }

  function Token(p: Primitives, pw: Password, bind: seq<byte>, prefix: seq<byte>, ts: u64): TokenBytes
    requires p.Valid() && |prefix| == 8
  {
    prefix + Xor(U64Bytes(ts), p.mask(pw, prefix)) + p.tag(pw, U64Bytes(ts), prefix, bind)
  }

  function Stamp(p: Primitives, pw: Password, token: TokenBytes): u64
    requires p.Valid()
  {
    U64At(Xor(token[8..16], p.mask(pw, token[..8])), 0)
  }

  predicate TagMatches(p: Primitives, pw: Password, token: TokenBytes, bind: seq<byte>)
    requires p.Valid()
  {
    p.tag(pw, Xor(token[8..16], p.mask(pw, token[..8])), token[..8], bind) == token[16..]
  }

  /** A made token carries its timestamp and passes the tag check of the same password and binding. */
  lemma MadeTokenVerifies(p: Primitives, pw: Password, bind: seq<byte>, prefix: seq<byte>, ts: u64)
    requires p.Valid() && |prefix| == 8
    ensures var token := Token(p, pw, bind, prefix, ts);
      Stamp(p, pw, token) == ts && TagMatches(p, pw, token, bind)
  {
    var token := Token(p, pw, bind, prefix, ts);
    var mask := p.mask(pw, prefix);
    assert token[..8] == prefix && token[8..16] == Xor(U64Bytes(ts), mask);
    XorUndone(U64Bytes(ts), mask);
    U64RoundTrip(ts, []);
    assert U64Bytes(ts) + [] == U64Bytes(ts);
  }

  lemma {:induction false} XorIsInjective(a: seq<byte>, b: seq<byte>, mask: seq<byte>)
    requires |a| == |b| == |mask| && Xor(a, mask) == Xor(b, mask)
    ensures a == b
  {
    XorUndone(a, mask);
    XorUndone(b, mask);
  }

  lemma TokenParts(p: Primitives, pw: Password, bind: seq<byte>, prefix: seq<byte>, ts: u64)
    requires p.Valid() && |prefix| == 8
    ensures var token := Token(p, pw, bind, prefix, ts);
      && token[..8] == prefix && token[8..16] == Xor(U64Bytes(ts), p.mask(pw, prefix))
      && token[16..] == p.tag(pw, U64Bytes(ts), prefix, bind)
  {
  }

  lemma StampIsMasked(p: Primitives, pw: Password, token: TokenBytes)
    requires p.Valid()
    ensures Xor(token[8..16], p.mask(pw, token[..8])) == U64Bytes(Stamp(p, pw, token))
    ensures Xor(U64Bytes(Stamp(p, pw, token)), p.mask(pw, token[..8])) == token[8..16]
  {
    U64OfBytes(Xor(token[8..16], p.mask(pw, token[..8])));
    XorUndone(token[8..16], p.mask(pw, token[..8]));
  }

  lemma MatchesItsParts(p: Primitives, pw: Password, token: TokenBytes, bind: seq<byte>)
    requires p.Valid()
    ensures TagMatches(p, pw, token, bind) <==> token == Token(p, pw, bind, token[..8], Stamp(p, pw, token))
  {
    StampIsMasked(p, pw, token);
    TokenParts(p, pw, bind, token[..8], Stamp(p, pw, token));
    hide Xor, U64Bytes, Stamp, Token;
    assert token == token[..8] + token[8..16] + token[16..];
  }

  /** The tag check passes for exactly one token per password, binding, prefix and timestamp: the one made of them. */
  lemma OnlyMadeTokensMatch(p: Primitives, pw: Password, token: TokenBytes, bind: seq<byte>)
    requires p.Valid()
    ensures TagMatches(p, pw, token, bind)
       <==> token == Token(p, pw, bind, token[..8], Stamp(p, pw, token))
    ensures TagMatches(p, pw, token, bind)
       <==> exists prefix: seq<byte>, ts: u64 :: |prefix| == 8 && token == Token(p, pw, bind, prefix, ts)
  {
    MatchesItsParts(p, pw, token, bind);
    hide Xor, U64Bytes, Stamp, Token, TagMatches;
    forall prefix: seq<byte>, ts: u64 | |prefix| == 8 && token == Token(p, pw, bind, prefix, ts)
      ensures TagMatches(p, pw, token, bind)
    {
      MadeTokenVerifies(p, pw, bind, prefix, ts);
    }
  }

  // ---- Verification ----------------------------------------------------------------------------

  /** verify_session_token at one clock reading: the tag, then the window, then the replay cache. */
  function VerifyStep(p: Primitives, pw: Password, token: TokenBytes, bind: seq<byte>, now: u64, tol: u64, s: Cache)
    : (Cache, bool)
    requires p.Valid()
  {
    var ts := Stamp(p, pw, token);
    if TagMatches(p, pw, token, bind) && WithinTolerance(ts, now, tol)
    then Step(s, Request(ts, token), RetainFor(tol))
    else (s, false)
  }

  lemma GateSpelled(ts: u64, now: u64, tol: u64)
    ensures WithinTolerance(ts, now, tol) <==> ts <= now + tol && now <= ts + tol
    ensures RetainFor(tol) == 2 * tol % 0x1_0000_0000_0000_0000 / 10 + 2
  {
  }

  /**
   What verification does to a cache: a token made of its own prefix and timestamp, no more than the tolerance
   away from the clock, is put to the cache; any other is refused and the cache is left alone.
   */
  ghost predicate Verifies(p: Primitives, pw: Password, token: TokenBytes, bind: seq<byte>, now: u64, tol: u64,
                           s: Cache, s': Cache, ok: bool)
    requires p.Valid()
  {
    var ts := Stamp(p, pw, token);
    if token == Token(p, pw, bind, token[..8], ts) && ts <= now + tol && now <= ts + tol
    then (s', ok) == Step(s, Request(ts, token), 2 * tol % 0x1_0000_0000_0000_0000 / 10 + 2)
    else !ok && s' == s
  }

  lemma VerifyStepVerifies(p: Primitives, pw: Password, token: TokenBytes, bind: seq<byte>, now: u64, tol: u64,
                           s: Cache)
    requires p.Valid()
    ensures var (s', ok) := VerifyStep(p, pw, token, bind, now, tol, s);
      Verifies(p, pw, token, bind, now, tol, s, s', ok)
  {
    OnlyMadeTokensMatch(p, pw, token, bind);
    GateSpelled(Stamp(p, pw, token), now, tol);
    hide Token, Stamp, TagMatches, Step, RetainFor, WithinTolerance;
  }

  method VerifySessionToken(cache: TokenReplayCache, p: Primitives, pw: Password, token: TokenBytes,
                            bind: seq<byte>, now: u64, tol: u64)
    returns (ok: bool)
    requires p.Valid()
    modifies cache
    ensures (cache.State(), ok) == VerifyStep(p, pw, token, bind, now, tol, old(cache.State()))
    ensures Verifies(p, pw, token, bind, now, tol, old(cache.State()), cache.State(), ok)
  {
    VerifyStepVerifies(p, pw, token, bind, now, tol, cache.State());
    hide Verifies, Token, Step, RetainFor, WithinTolerance;
    var prefix := token[..8];
    var tsBytes := XorLoop(token[8..16], p.mask(pw, prefix));
    if p.tag(pw, tsBytes, prefix, bind) != token[16..] {
      return false;
    }
    var ts := U64At(tsBytes, 0);
    if !WithinTolerance(ts, now, tol) {
      return false;
    }
    GateSpelled(ts, now, tol);
    ok := cache.CheckAndInsert(ts, token, 2 * tol % (U64_MAX + 1) / REPLAY_BUCKET_SECS + 2);
  }

  /** identify_session_token from password i on; clock[k] is the reading taken for password k. */
  function IdentifyFrom(p: Primitives, pws: seq<Password>, i: nat, token: TokenBytes, bind: seq<byte>,
                        clock: seq<u64>, tol: u64, s: Cache)
    : (Cache, Option<nat>)
    requires p.Valid() && |clock| == |pws| && i <= |pws|
    decreases |pws| - i
  {
    if i == |pws| then (s, None) else
      var (s', ok) := VerifyStep(p, pws[i], token, bind, clock[i], tol, s);
      if ok then (s', Some(i)) else IdentifyFrom(p, pws, i + 1, token, bind, clock, tol, s')
  }

  method IdentifySessionToken(cache: TokenReplayCache, p: Primitives, pws: seq<Password>, token: TokenBytes,
                              bind: seq<byte>, clock: seq<u64>, tol: u64)
    returns (who: Option<nat>)
    requires p.Valid() && |clock| == |pws|
    modifies cache
    ensures (cache.State(), who) == IdentifyFrom(p, pws, 0, token, bind, clock, tol, old(cache.State()))
  {
    var i := 0;
    while i < |pws|
      invariant i <= |pws|
      invariant IdentifyFrom(p, pws, i, token, bind, clock, tol, cache.State())
             == IdentifyFrom(p, pws, 0, token, bind, clock, tol, old(cache.State()))
    {
      var ok := VerifySessionToken(cache, p, pws[i], token, bind, clock[i], tol);
      if ok {
        return Some(i);
      }
      i := i + 1;
    }
    who := None;
  }

  /** The token passes the tag check of at most one credential. */
  ghost predicate OneOwner(p: Primitives, pws: seq<Password>, token: TokenBytes, bind: seq<byte>)
    requires p.Valid()
  {
    forall i, j :: 0 <= i < |pws| && 0 <= j < |pws| ==>
      TagMatches(p, pws[i], token, bind) && TagMatches(p, pws[j], token, bind) ==> i == j
  }

  /** The password whose tag matches, if there is one. */
  function Owner(p: Primitives, pws: seq<Password>, i: nat, token: TokenBytes, bind: seq<byte>): (o: Option<nat>)
    requires p.Valid() && i <= |pws|
    ensures o.Some? ==> i <= o.value < |pws| && TagMatches(p, pws[o.value], token, bind)
    ensures o.None? ==> forall k :: i <= k < |pws| ==> !TagMatches(p, pws[k], token, bind)
    decreases |pws| - i
  {
    if i == |pws| then None
    else if TagMatches(p, pws[i], token, bind) then Some(i)
    else Owner(p, pws, i + 1, token, bind)
  }

  /** Trying every password touches the cache once, for the owner alone, and reports the owner. */
  lemma {:induction false} IdentifyIsVerifyByOwner(p: Primitives, pws: seq<Password>, i: nat, token: TokenBytes,
                                                   bind: seq<byte>, clock: seq<u64>, tol: u64, s: Cache)
    requires p.Valid() && |clock| == |pws| && i <= |pws| && OneOwner(p, pws, token, bind)
    ensures IdentifyFrom(p, pws, i, token, bind, clock, tol, s) ==
      match Owner(p, pws, i, token, bind)
      case None => (s, None)
      case Some(o) =>
        var (s', ok) := VerifyStep(p, pws[o], token, bind, clock[o], tol, s);
        (s', if ok then Some(o) else None)
    decreases |pws| - i
  {
    if i < |pws| {
      IdentifyIsVerifyByOwner(p, pws, i + 1, token, bind, clock, tol,
                              VerifyStep(p, pws[i], token, bind, clock[i], tol, s).0);
      if TagMatches(p, pws[i], token, bind) {
        assert Owner(p, pws, i + 1, token, bind).None?;
      }
    }
  }

  // ---- Whole runs of a server ------------------------------------------------------------------

  datatype Attempt = Attempt(token: TokenBytes, bind: seq<byte>, clock: seq<u64>)

  ghost predicate WellClocked(attempts: seq<Attempt>, pws: seq<Password>) {
    forall i :: 0 <= i < |attempts| ==> |attempts[i].clock| == |pws|
  }

  predicate Matches(p: Primitives, pws: seq<Password>, i: int, a: Attempt)
    requires p.Valid()
  {
    0 <= i < |pws| && TagMatches(p, pws[i], a.token, a.bind)
  }

  /** Of the tokens presented, none passes the tag check of two credentials, under the bindings it came with. */
  ghost predicate TagsDistinguish(p: Primitives, pws: seq<Password>, attempts: seq<Attempt>)
    requires p.Valid()
  {
    forall k, l, i, j :: 0 <= k < |attempts| && 0 <= l < |attempts| && attempts[k].token == attempts[l].token ==>
      Matches(p, pws, i, attempts[k]) && Matches(p, pws, j, attempts[l]) ==> i == j
  }

  /** None of the attempts has a token whose tag two credentials accept under its binding. */
  ghost predicate EachHasOneOwner(p: Primitives, pws: seq<Password>, attempts: seq<Attempt>)
    requires p.Valid()
  {
    forall k :: 0 <= k < |attempts| ==> OneOwner(p, pws, attempts[k].token, attempts[k].bind)
  }

  lemma DistinguishedHaveOneOwner(p: Primitives, pws: seq<Password>, attempts: seq<Attempt>)
    requires p.Valid() && TagsDistinguish(p, pws, attempts)
    ensures EachHasOneOwner(p, pws, attempts)
  {
    forall k | 0 <= k < |attempts|
      ensures OneOwner(p, pws, attempts[k].token, attempts[k].bind)
    {
      assert forall i :: 0 <= i < |pws| && TagMatches(p, pws[i], attempts[k].token, attempts[k].bind) ==>
          Matches(p, pws, i, attempts[k]);
    }
  }

  /** The cache after a list of identification attempts. */
  function AuthAfter(p: Primitives, pws: seq<Password>, tol: u64, attempts: seq<Attempt>): Cache
    requires p.Valid() && WellClocked(attempts, pws)
  {
    if attempts == [] then EMPTY else
      var n := |attempts| - 1;
      var a := attempts[n];
      IdentifyFrom(p, pws, 0, a.token, a.bind, a.clock, tol, AuthAfter(p, pws, tol, attempts[..n])).0
  }

  function Identified(p: Primitives, pws: seq<Password>, tol: u64, attempts: seq<Attempt>, i: nat): Option<nat>
    requires p.Valid() && WellClocked(attempts, pws) && i < |attempts|
  {
    var a := attempts[i];
    IdentifyFrom(p, pws, 0, a.token, a.bind, a.clock, tol, AuthAfter(p, pws, tol, attempts[..i])).1
  }

  /** The cache request an attempt leads to, with its clock reading: none unless tag and window pass. */
  function Reaches(p: Primitives, pws: seq<Password>, tol: u64, a: Attempt): Option<(Request, u64)>
    requires p.Valid() && |a.clock| == |pws|
  {
    match Owner(p, pws, 0, a.token, a.bind)
    case None => None
    case Some(o) =>
      var ts := Stamp(p, pws[o], a.token);
      if WithinTolerance(ts, a.clock[o], tol) then Some((Request(ts, a.token), a.clock[o])) else None
  }

  function Reached(p: Primitives, pws: seq<Password>, tol: u64, attempts: seq<Attempt>)
    : (r: seq<Option<(Request, u64)>>)
    requires p.Valid() && WellClocked(attempts, pws)
    ensures |r| == |attempts|
  {
    seq(|attempts|, i requires 0 <= i < |attempts| => Reaches(p, pws, tol, attempts[i]))
  }

  /** The requests a list of attempts makes of the cache, with the clock readings that admitted them. */
  function Requests(p: Primitives, pws: seq<Password>, tol: u64, attempts: seq<Attempt>): seq<(Request, u64)>
    requires p.Valid() && WellClocked(attempts, pws)
  {
    Somes(Reached(p, pws, tol, attempts))
  }

  lemma RequestsPrefix(p: Primitives, pws: seq<Password>, tol: u64, attempts: seq<Attempt>, m: nat)
    requires p.Valid() && WellClocked(attempts, pws) && m <= |attempts|
    ensures Requests(p, pws, tol, attempts[..m]) == Somes(Reached(p, pws, tol, attempts)[..m])
  {
    assert Reached(p, pws, tol, attempts[..m]) == Reached(p, pws, tol, attempts)[..m];
  }

  /** Where the request of attempt i stands among all of them. */
  lemma RequestPosition(p: Primitives, pws: seq<Password>, tol: u64, attempts: seq<Attempt>, i: nat, m: nat)
    requires p.Valid() && WellClocked(attempts, pws) && i < m <= |attempts| && Reaches(p, pws, tol, attempts[i]).Some?
    ensures var rs, at := Requests(p, pws, tol, attempts[..m]), Requests(p, pws, tol, attempts[..i]);
      |at| < |rs| && rs[..|at|] == at && rs[|at|] == Reaches(p, pws, tol, attempts[i]).value
  {
    RequestsPrefix(p, pws, tol, attempts, i);
    RequestsPrefix(p, pws, tol, attempts, m);
    SomesPosition(Reached(p, pws, tol, attempts), i, m);
  }

  lemma AttemptStep(p: Primitives, pws: seq<Password>, tol: u64, a: Attempt, s: Cache)
    requires p.Valid() && |a.clock| == |pws| && OneOwner(p, pws, a.token, a.bind)
    ensures var (s', who) := IdentifyFrom(p, pws, 0, a.token, a.bind, a.clock, tol, s);
      match Reaches(p, pws, tol, a)
      case None => s' == s && who.None?
      case Some(reached) => (s', who.Some?) == Step(s, reached.0, RetainFor(tol))
  {
    IdentifyIsVerifyByOwner(p, pws, 0, a.token, a.bind, a.clock, tol, s);
  }

  /** Identification drives the cache exactly as the filtered requests do. */
  lemma {:induction false} AuthIsCacheRun(p: Primitives, pws: seq<Password>, tol: u64, attempts: seq<Attempt>)
    requires p.Valid() && WellClocked(attempts, pws) && EachHasOneOwner(p, pws, attempts)
    ensures AuthAfter(p, pws, tol, attempts)
         == After(Firsts(Requests(p, pws, tol, attempts)), RetainFor(tol))
  {
    if attempts != [] {
      var n := |attempts| - 1;
      AuthIsCacheRun(p, pws, tol, attempts[..n]);
      RequestsPrefix(p, pws, tol, attempts, n);
      AttemptStep(p, pws, tol, attempts[n], AuthAfter(p, pws, tol, attempts[..n]));
      AfterOptional(Requests(p, pws, tol, attempts[..n]), Reaches(p, pws, tol, attempts[n]), RetainFor(tol));
    }
  }

  lemma AfterOptional(rs: seq<(Request, u64)>, r: Option<(Request, u64)>, retain: u64)
    ensures After(Firsts(rs + Optional(r)), retain)
         == if r.None? then After(Firsts(rs), retain)
            else Step(After(Firsts(rs), retain), r.value.0, retain).0
  {
    var all := Firsts(rs + Optional(r));
    if r.None? {
      assert all == Firsts(rs);
    } else {
      assert all[..|all| - 1] == Firsts(rs);
    }
  }

  /** An attempt is identified, as its owner, exactly if it reaches the cache and the cache accepts its request. */
  lemma IdentifiedIsAccepted(p: Primitives, pws: seq<Password>, tol: u64, attempts: seq<Attempt>, i: nat)
    requires p.Valid() && WellClocked(attempts, pws) && EachHasOneOwner(p, pws, attempts) && i < |attempts|
    ensures var who := Identified(p, pws, tol, attempts, i); var reached := Reaches(p, pws, tol, attempts[i]);
      var rs, k := Requests(p, pws, tol, attempts), |Requests(p, pws, tol, attempts[..i])|;
      && (reached.Some? ==> k < |rs| && rs[k] == reached.value)
      && (who.Some? <==> reached.Some? && Accepted(Firsts(rs), k, RetainFor(tol)))
      && (who.Some? ==> who == Owner(p, pws, 0, attempts[i].token, attempts[i].bind))
  {
    hide IdentifyFrom, Reaches, Requests, Step, TagMatches;
    var a := attempts[i];
    AttemptStep(p, pws, tol, a, AuthAfter(p, pws, tol, attempts[..i]));
    IdentifyIsVerifyByOwner(p, pws, 0, a.token, a.bind, a.clock, tol, AuthAfter(p, pws, tol, attempts[..i]));
    AuthIsCacheRun(p, pws, tol, attempts[..i]);
    if Reaches(p, pws, tol, a).Some? {
      assert attempts[..|attempts|] == attempts;
      RequestPosition(p, pws, tol, attempts, i, |attempts|);
      var rs, k := Requests(p, pws, tol, attempts), |Requests(p, pws, tol, attempts[..i])|;
      assert Firsts(rs)[..k] == Firsts(Requests(p, pws, tol, attempts[..i]));
    }
  }

  lemma SameTokenSameStamp(p: Primitives, pws: seq<Password>, tol: u64, attempts: seq<Attempt>, i: nat, j: nat)
    requires p.Valid() && WellClocked(attempts, pws) && TagsDistinguish(p, pws, attempts)
    requires i < |attempts| && j < |attempts| && attempts[i].token == attempts[j].token
    requires Reaches(p, pws, tol, attempts[i]).Some? && Reaches(p, pws, tol, attempts[j]).Some?
    ensures Reaches(p, pws, tol, attempts[i]).value.0 == Reaches(p, pws, tol, attempts[j]).value.0
  {
    var a, b := attempts[i], attempts[j];
    assert Matches(p, pws, Owner(p, pws, 0, a.token, a.bind).value, a);
    assert Matches(p, pws, Owner(p, pws, 0, b.token, b.bind).value, b);
  }

  /** The filtered requests pass the tolerance gate, and a token determines its timestamp. */
  lemma RequestsAreGated(p: Primitives, pws: seq<Password>, tol: u64, attempts: seq<Attempt>)
    requires p.Valid() && WellClocked(attempts, pws) && TagsDistinguish(p, pws, attempts)
    ensures var rs := Requests(p, pws, tol, attempts);
      Gated(Firsts(rs), Seconds(rs), tol) && StampedOnce(Firsts(rs))
  {
    var rs := Requests(p, pws, tol, attempts);
    forall k | 0 <= k < |rs|
      ensures WithinTolerance(rs[k].0.ts, rs[k].1, tol)
    {
      var i := SomesOrigin(Reached(p, pws, tol, attempts), k);
    }
    forall k, l | 0 <= k < |rs| && 0 <= l < |rs| && rs[k].0.token == rs[l].0.token
      ensures rs[k].0.ts == rs[l].0.ts
    {
      var i := SomesOrigin(Reached(p, pws, tol, attempts), k);
      var j := SomesOrigin(Reached(p, pws, tol, attempts), l);
      SameTokenSameStamp(p, pws, tol, attempts, i, j);
    }
  }

  /**
   While the readings that reach the cache stay within the jitter bound, a server with any list of
   credentials identifies a given token at most once in its whole life, whatever else it is sent.
   */
  lemma IdentifiedAtMostOnce(p: Primitives, pws: seq<Password>, tol: u64, attempts: seq<Attempt>, i: nat, j: nat)
    requires p.Valid() && 2 * tol <= U64_MAX && WellClocked(attempts, pws) && TagsDistinguish(p, pws, attempts)
    requires JitterAtMost(Seconds(Requests(p, pws, tol, attempts)), JitterBound(tol))
    requires i < j < |attempts| && attempts[i].token == attempts[j].token
    requires Identified(p, pws, tol, attempts, i).Some?
    ensures Identified(p, pws, tol, attempts, j).None?
  {
    if Identified(p, pws, tol, attempts, j).Some? {
      var rs := Requests(p, pws, tol, attempts);
      DistinguishedHaveOneOwner(p, pws, attempts);
      IdentifiedIsAccepted(p, pws, tol, attempts, i);
      IdentifiedIsAccepted(p, pws, tol, attempts, j);
      RequestPosition(p, pws, tol, attempts, i, j);
      var k, l := |Requests(p, pws, tol, attempts[..i])|, |Requests(p, pws, tol, attempts[..j])|;
      RequestsAreGated(p, pws, tol, attempts);
      assert k < l;
      assert Firsts(rs)[k].token == Firsts(rs)[l].token;
      SteadyClockAcceptsOnce(Firsts(rs), Seconds(rs), tol, k, l);
    }
  }
}
