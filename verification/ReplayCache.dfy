/**
 The token replay cache: a set of recently accepted tokens, kept in ten-second buckets below a
 high-water mark that only a clock rollback may lower.
 */
module ReplayCache {
  import opened Prelude
  import opened Bytes

  const REPLAY_BUCKET_SECS := 10
  const BUCKET_LIMIT := 100_000

  type Token = seq<byte>

  datatype Cache = Cache(hwm: u64, buckets: map<u64, set<Token>>)

  const EMPTY := Cache(0, map[])

  /** One call of check_and_insert: the timestamp a token carries, and its bytes. */
  datatype Request = Request(ts: u64, token: Token)

  function SaturatingAdd(a: u64, b: u64): u64 {
    if a + b <= U64_MAX then a + b else U64_MAX
  }

  function Bucket(ts: u64): u64 {
    ts / REPLAY_BUCKET_SECS
  }

  /** The clock-rollback test: the token is older than everything the cache retains. */
  predicate RollsBack(hwm: u64, ts: u64, retain: u64) {
    SaturatingAdd(Bucket(ts), retain) < hwm
  }

  function Insert(buckets: map<u64, set<Token>>, b: u64, token: Token): (map<u64, set<Token>>, bool) {
    var bucket := if b in buckets then buckets[b] else {};
    if |bucket| > BUCKET_LIMIT then (buckets[b := bucket], false)
    else (buckets[b := bucket + {token}], token !in bucket)
  }

  function Evict(buckets: map<u64, set<Token>>, hwm: u64, retain: u64): map<u64, set<Token>> {
    map k | k in buckets && Max(hwm - k, 0) <= retain :: buckets[k]
  }

  /** The effect of one request on the cache. */
  function Step(s: Cache, r: Request, retain: u64): (Cache, bool) {
    var rolled := RollsBack(s.hwm, r.ts, retain);
    var hwm := if rolled then Bucket(r.ts) else Max(s.hwm, Bucket(r.ts));
    var kept := Evict(if rolled then map[] else s.buckets, hwm, retain);
    var (buckets, accepted) := Insert(kept, Bucket(r.ts), r.token);
    (Cache(hwm, buckets), accepted)
  }

  class TokenReplayCache {
    var hwm: u64
    var buckets: map<u64, set<Token>>

    ghost function State(): Cache
      reads this
    {
      Cache(hwm, buckets)
    }

    constructor ()
      ensures State() == EMPTY
    {
      hwm, buckets := 0, map[];
    }

    method CheckAndInsert(ts: u64, token: Token, retain: u64) returns (accepted: bool)
      modifies this
      ensures (State(), accepted) == Step(old(State()), Request(ts, token), retain)
    {
      var current := ts / REPLAY_BUCKET_SECS;
      if SaturatingAdd(current, retain) < hwm {
        buckets := map[];
        hwm := current;
      } else {
        hwm := Max(hwm, current);
      }
      buckets := map k | k in buckets && Max(hwm - k, 0) <= retain :: buckets[k];
      ghost var kept := buckets;
      assert kept == Evict(if RollsBack(old(hwm), ts, retain) then map[] else old(buckets), hwm, retain);
      var bucket := if current in buckets then buckets[current] else {};
      buckets := buckets[current := bucket];
      if |bucket| > BUCKET_LIMIT {
        accepted := false;
      } else {
        accepted := token !in bucket;
        buckets := buckets[current := bucket + {token}];
        assert buckets == kept[current := bucket + {token}];
      }
    }
  }

  // ---- Runs ------------------------------------------------------------------------------------

  /** The cache after a list of requests. */
  function After(rs: seq<Request>, retain: u64): Cache {
    if rs == [] then EMPTY else Step(After(rs[..|rs| - 1], retain), rs[|rs| - 1], retain).0
  }

  predicate Accepted(rs: seq<Request>, i: nat, retain: u64)
    requires i < |rs|
  {
    Step(After(rs[..i], retain), rs[i], retain).1
  }

  predicate ResetAt(rs: seq<Request>, i: nat, retain: u64)
    requires i < |rs|
  {
    RollsBack(After(rs[..i], retain).hwm, rs[i].ts, retain)
  }

  /** Every token carries one timestamp, whenever it is presented. */
  ghost predicate StampedOnce(rs: seq<Request>) {
    forall i, j :: 0 <= i < |rs| && 0 <= j < |rs| && rs[i].token == rs[j].token ==> rs[i].ts == rs[j].ts
  }

  lemma AfterPrefix(rs: seq<Request>, i: nat, retain: u64)
    requires i < |rs|
    ensures After(rs[..i + 1], retain) == Step(After(rs[..i], retain), rs[i], retain).0
  {
    assert rs[..i + 1][..i] == rs[..i];
  }

  /** The live keys lie in [hwm - retain, hwm] and a bucket never holds more than 100001 tokens. */
  ghost predicate WithinWindow(s: Cache, retain: u64) {
    forall k :: k in s.buckets ==> s.hwm - retain <= k <= s.hwm && |s.buckets[k]| <= 100_001
  }

  lemma StepKeepsWindow(s: Cache, r: Request, retain: u64)
    requires WithinWindow(s, retain)
    ensures WithinWindow(Step(s, r, retain).0, retain)
  {
    var rolled := RollsBack(s.hwm, r.ts, retain);
    var hwm := if rolled then Bucket(r.ts) else Max(s.hwm, Bucket(r.ts));
    var kept := Evict(if rolled then map[] else s.buckets, hwm, retain);
    var bucket := if Bucket(r.ts) in kept then kept[Bucket(r.ts)] else {};
    assert |bucket + {r.token}| <= |bucket| + 1;
  }

  lemma {:induction false} WindowAlways(rs: seq<Request>, retain: u64)
    ensures WithinWindow(After(rs, retain), retain)
  {
    if rs != [] {
      WindowAlways(rs[..|rs| - 1], retain);
      StepKeepsWindow(After(rs[..|rs| - 1], retain), rs[|rs| - 1], retain);
    }
  }

  // ---- Eviction is invisible -------------------------------------------------------------------

  /** The same decision procedure without eviction: everything accepted since the last reset. */
  function LogStep(s: Cache, r: Request, retain: u64): (Cache, bool) {
    var rolled := RollsBack(s.hwm, r.ts, retain);
    var hwm := if rolled then Bucket(r.ts) else Max(s.hwm, Bucket(r.ts));
    var (buckets, accepted) := Insert(if rolled then map[] else s.buckets, Bucket(r.ts), r.token);
    (Cache(hwm, buckets), accepted)
  }

  function LogAfter(rs: seq<Request>, retain: u64): Cache {
    if rs == [] then EMPTY else LogStep(LogAfter(rs[..|rs| - 1], retain), rs[|rs| - 1], retain).0
  }

  /** s is the part of the log l that is still inside the retention window. */
  ghost predicate WindowOf(s: Cache, l: Cache, retain: u64) {
    && s.hwm == l.hwm
    && (forall k :: k in l.buckets ==> k <= l.hwm)
    && s.buckets == Evict(l.buckets, l.hwm, retain)
  }

  lemma EvictThenInsert(buckets: map<u64, set<Token>>, hwm: u64, retain: u64, b: u64, t: Token)
    requires Max(hwm - b, 0) <= retain
    ensures Insert(Evict(buckets, hwm, retain), b, t)
         == (Evict(Insert(buckets, b, t).0, hwm, retain), Insert(buckets, b, t).1)
  {
    assert Insert(Evict(buckets, hwm, retain), b, t).0 == Evict(Insert(buckets, b, t).0, hwm, retain);
  }

  lemma EvictAgain(buckets: map<u64, set<Token>>, h: u64, hwm: u64, retain: u64)
    requires h <= hwm && forall k :: k in buckets ==> k <= h
    ensures Evict(Evict(buckets, h, retain), hwm, retain) == Evict(buckets, hwm, retain)
  {
  }

  lemma StepMatchesLog(s: Cache, l: Cache, r: Request, retain: u64)
    requires WindowOf(s, l, retain)
    ensures Step(s, r, retain).1 == LogStep(l, r, retain).1
    ensures WindowOf(Step(s, r, retain).0, LogStep(l, r, retain).0, retain)
  {
    var rolled := RollsBack(s.hwm, r.ts, retain);
    var hwm := if rolled then Bucket(r.ts) else Max(s.hwm, Bucket(r.ts));
    EvictAgain(l.buckets, l.hwm, Max(s.hwm, Bucket(r.ts)), retain);
    assert Evict(map[], hwm, retain) == map[];
    EvictThenInsert(if rolled then map[] else l.buckets, hwm, retain, Bucket(r.ts), r.token);
  }

  /** For any requests at all, the bounded cache is the retention window of the unbounded log ... */
  lemma {:induction false} CacheIsWindowOfLog(rs: seq<Request>, retain: u64)
    ensures WindowOf(After(rs, retain), LogAfter(rs, retain), retain)
  {
    if rs != [] {
      var n := |rs| - 1;
      CacheIsWindowOfLog(rs[..n], retain);
      StepMatchesLog(After(rs[..n], retain), LogAfter(rs[..n], retain), rs[n], retain);
    }
  }

  /** ... and takes the same decision on every one of them. */
  lemma EvictionIsInvisible(rs: seq<Request>, i: nat, retain: u64)
    requires i < |rs|
    ensures Accepted(rs, i, retain) == LogStep(LogAfter(rs[..i], retain), rs[i], retain).1
  {
    CacheIsWindowOfLog(rs[..i], retain);
    StepMatchesLog(After(rs[..i], retain), LogAfter(rs[..i], retain), rs[i], retain);
  }

  // ---- What a decision means -------------------------------------------------------------------

  /** Request i was accepted and nothing has reset the cache since. */
  ghost predicate Remembered(rs: seq<Request>, i: nat, retain: u64) {
    && i < |rs|
    && Accepted(rs, i, retain)
    && forall k :: i < k < |rs| ==> !ResetAt(rs, k, retain)
  }

  /** Token t was accepted into bucket b in the current epoch. */
  ghost predicate InEpoch(rs: seq<Request>, b: u64, t: Token, retain: u64) {
    exists i: nat :: Remembered(rs, i, retain) && Bucket(rs[i].ts) == b && rs[i].token == t
  }

  function Held(s: Cache, b: u64): set<Token> {
    if b in s.buckets then s.buckets[b] else {}
  }

  /** What happened at request k does not depend on what comes after it. */
  lemma SameHistory(rs: seq<Request>, m: nat, k: nat, retain: u64)
    requires k < m <= |rs|
    ensures Accepted(rs[..m], k, retain) == Accepted(rs, k, retain)
    ensures ResetAt(rs[..m], k, retain) == ResetAt(rs, k, retain)
  {
    assert rs[..m][..k] == rs[..k];
  }

  lemma RememberedPrefix(rs: seq<Request>, m: nat, i: nat, retain: u64)
    requires i < m <= |rs|
    requires forall k :: m <= k < |rs| ==> !ResetAt(rs, k, retain)
    ensures Remembered(rs, i, retain) <==> Remembered(rs[..m], i, retain)
  {
    SameHistory(rs, m, i, retain);
    forall k | i < k < m
      ensures ResetAt(rs[..m], k, retain) == ResetAt(rs, k, retain)
    {
      SameHistory(rs, m, k, retain);
    }
  }

  lemma EpochStep(rs: seq<Request>, b: u64, t: Token, retain: u64)
    requires rs != []
    ensures var n := |rs| - 1;
      InEpoch(rs, b, t, retain) <==>
        || (b == Bucket(rs[n].ts) && t == rs[n].token && Accepted(rs, n, retain))
        || (!ResetAt(rs, n, retain) && InEpoch(rs[..n], b, t, retain))
  {
    hide Accepted, ResetAt, Bucket;
    var n := |rs| - 1;
    assert Remembered(rs, n, retain) == Accepted(rs, n, retain);
    if !ResetAt(rs, n, retain) {
      forall i: nat | i < n
        ensures Remembered(rs, i, retain) <==> Remembered(rs[..n], i, retain)
      {
        RememberedPrefix(rs, n, i, retain);
      }
    }
  }

  lemma HeldStep(l: Cache, r: Request, b: u64, t: Token, retain: u64)
    ensures var (l', accepted) := LogStep(l, r, retain);
      t in Held(l', b) <==>
        || (b == Bucket(r.ts) && t == r.token && accepted)
        || (!RollsBack(l.hwm, r.ts, retain) && t in Held(l, b))
  {
  }

  /** The unbounded log holds exactly the tokens accepted since the last reset. */
  lemma {:induction false} LogHoldsTheEpoch(rs: seq<Request>, b: u64, t: Token, retain: u64)
    ensures t in Held(LogAfter(rs, retain), b) <==> InEpoch(rs, b, t, retain)
  {
    if rs != [] {
      var n := |rs| - 1;
      LogHoldsTheEpoch(rs[..n], b, t, retain);
      CacheIsWindowOfLog(rs[..n], retain);
      EvictionIsInvisible(rs, n, retain);
      EpochStep(rs, b, t, retain);
      HeldStep(LogAfter(rs[..n], retain), rs[n], b, t, retain);
    }
  }

  /**
   Exactly when a request is accepted: it resets the cache, or its token has not been accepted into
   its bucket since the last reset and that bucket took in at most 100000 tokens since.
   */
  lemma AcceptedExactly(rs: seq<Request>, j: nat, retain: u64)
    requires j < |rs|
    ensures Accepted(rs, j, retain) <==>
      || ResetAt(rs, j, retain)
      || (&& !InEpoch(rs[..j], Bucket(rs[j].ts), rs[j].token, retain)
          && |Held(LogAfter(rs[..j], retain), Bucket(rs[j].ts))| <= 100_000)
  {
    EvictionIsInvisible(rs, j, retain);
    CacheIsWindowOfLog(rs[..j], retain);
    LogHoldsTheEpoch(rs[..j], Bucket(rs[j].ts), rs[j].token, retain);
  }

  /** Whatever the clock does, a token accepted twice was separated by a reset. */
  lemma DoubleAcceptNeedsReset(rs: seq<Request>, i: nat, j: nat, retain: u64)
    requires i < j < |rs| && rs[i] == rs[j]
    requires Accepted(rs, i, retain) && Accepted(rs, j, retain)
    ensures exists k :: i < k <= j && ResetAt(rs, k, retain)
  {
    if forall k :: i < k <= j ==> !ResetAt(rs, k, retain) {
      AcceptedExactly(rs, j, retain);
      forall k | i <= k < j
        ensures Accepted(rs[..j], k, retain) == Accepted(rs, k, retain)
        ensures ResetAt(rs[..j], k, retain) == ResetAt(rs, k, retain)
      {
        SameHistory(rs, j, k, retain);
      }
      assert Remembered(rs[..j], i, retain);
      assert false;
    }
  }

  // ---- Clocks ----------------------------------------------------------------------------------

  /** The tolerance window of ts_within_tolerance. */
  predicate WithinTolerance(ts: u64, now: u64, tol: u64) {
    now <= SaturatingAdd(ts, tol) && ts <= SaturatingAdd(now, tol)
  }

  /** The retained bucket count verify_session_token derives from the tolerance; the product wraps at 64 bits. */
  function RetainFor(tol: u64): u64 {
    2 * tol % (U64_MAX + 1) / REPLAY_BUCKET_SECS + 2
  }

  /** Each request passed the tolerance gate at its clock reading. */
  ghost predicate Gated(rs: seq<Request>, clock: seq<u64>, tol: u64) {
    |clock| == |rs| && forall i :: 0 <= i < |rs| ==> WithinTolerance(rs[i].ts, clock[i], tol)
  }

  /** No reading is more than jitter seconds below an earlier one. */
  ghost predicate JitterAtMost(clock: seq<u64>, jitter: nat) {
    forall i, k :: 0 <= i < k < |clock| ==> clock[i] <= clock[k] + jitter
  }

  lemma {:induction false} HighWaterMarkIsABucket(rs: seq<Request>, retain: u64)
    ensures After(rs, retain).hwm == 0 || exists i :: 0 <= i < |rs| && After(rs, retain).hwm == Bucket(rs[i].ts)
  {
    if rs != [] {
      var n := |rs| - 1;
      HighWaterMarkIsABucket(rs[..n], retain);
      var before := After(rs[..n], retain).hwm;
      if i :| 0 <= i < n && before == Bucket(rs[..n][i].ts) {
        assert before == Bucket(rs[i].ts);
      }
    }
  }

  /** The largest rollback the derived retention absorbs. */
  function JitterBound(tol: u64): nat {
    20 - 2 * tol % 10
  }

  /** The window and the bound together are what is retained. */
  lemma RetainCovers(tol: u64)
    requires 2 * tol <= U64_MAX
    ensures 10 * (RetainFor(tol) as int) == 2 * tol + JitterBound(tol)
  {
    assert 2 * tol % (U64_MAX + 1) == 2 * tol;
  }

  lemma SteadyClockNeverResets(rs: seq<Request>, clock: seq<u64>, tol: u64, k: nat)
    requires 2 * tol <= U64_MAX && k < |rs|
    requires Gated(rs, clock, tol) && JitterAtMost(clock, JitterBound(tol))
    ensures !ResetAt(rs, k, RetainFor(tol))
  {
    RetainCovers(tol);
    hide RetainFor, After;
    var retain := RetainFor(tol);
    HighWaterMarkIsABucket(rs[..k], retain);
    var hwm := After(rs[..k], retain).hwm;
    if i :| 0 <= i < k && hwm == Bucket(rs[..k][i].ts) {
      assert WithinTolerance(rs[i].ts, clock[i], tol) && WithinTolerance(rs[k].ts, clock[k], tol);
      assert rs[i].ts <= clock[i] + tol && clock[i] <= clock[k] + JitterBound(tol) && clock[k] <= rs[k].ts + tol;
      assert (rs[i].ts as int) <= rs[k].ts + 10 * (retain as int);
    }
  }

  /** No gated run over a clock with that jitter ever takes the reset branch. */
  ghost predicate NeverResets(tol: u64, jitter: nat) {
    forall rs, clock, k: nat :: Gated(rs, clock, tol) && JitterAtMost(clock, jitter) && k < |rs| ==>
      !ResetAt(rs, k, RetainFor(tol))
  }

  /** One second more than the bound: a token at the top of the window, then one at the bottom. */
  lemma LargerRollbackResets(tol: u64, jitter: nat)
    requires 2 * tol + 60 <= U64_MAX && jitter > JitterBound(tol)
    ensures !NeverResets(tol, jitter)
  {
    RetainCovers(tol);
    hide RetainFor;
    var retain := RetainFor(tol);
    var top := 10 * (retain + 1);
    var high, low := top - tol, top - tol - JitterBound(tol) - 1;
    var rs := [Request(top, []), Request(low - tol, [])];
    var clock := [high, low];
    assert low - tol == 9;
    assert Gated(rs, clock, tol) && JitterAtMost(clock, jitter);
    assert rs[..1] == [rs[0]] && rs[..1][..0] == [];
    assert After(rs[..1], retain).hwm == retain + 1;
    assert ResetAt(rs, 1, retain);
  }

  /** With a clock inside the bound, a token is accepted at most once in the whole run. */
  lemma SteadyClockAcceptsOnce(rs: seq<Request>, clock: seq<u64>, tol: u64, i: nat, j: nat)
    requires 2 * tol <= U64_MAX && i < j < |rs|
    requires Gated(rs, clock, tol) && JitterAtMost(clock, JitterBound(tol)) && StampedOnce(rs)
    requires rs[i].token == rs[j].token && Accepted(rs, i, RetainFor(tol))
    ensures !Accepted(rs, j, RetainFor(tol))
  {
    if Accepted(rs, j, RetainFor(tol)) {
      assert rs[i] == rs[j];
      DoubleAcceptNeedsReset(rs, i, j, RetainFor(tol));
      var k :| i < k <= j && ResetAt(rs, k, RetainFor(tol));
      SteadyClockNeverResets(rs, clock, tol, k);
    }
  }

  /** ... and one never accepted before is accepted whenever its bucket is not saturated. */
  lemma FreshTokenIsAccepted(rs: seq<Request>, j: nat, retain: u64)
    requires j < |rs|
    requires forall i :: 0 <= i < j && rs[i].token == rs[j].token ==> !Accepted(rs, i, retain)
    requires |Held(LogAfter(rs[..j], retain), Bucket(rs[j].ts))| <= 100_000
    ensures Accepted(rs, j, retain)
  {
    AcceptedExactly(rs, j, retain);
    forall i: nat | i < j
      ensures Accepted(rs[..j], i, retain) == Accepted(rs, i, retain)
    {
      SameHistory(rs, j, i, retain);
    }
  }

  lemma {:induction false} HeldSize(rs: seq<Request>, b: u64, retain: u64)
    ensures |Held(LogAfter(rs, retain), b)| <= |rs|
  {
    if rs != [] {
      var front, last := rs[..|rs| - 1], rs[|rs| - 1];
      HeldSize(front, b, retain);
      HeldGrows(LogAfter(front, retain), last, b, retain);
    }
  }

  lemma HeldGrows(l: Cache, r: Request, b: u64, retain: u64)
    ensures |Held(LogStep(l, r, retain).0, b)| <= |Held(l, b)| + 1
  {
    assert |Held(l, b) + {r.token}| <= |Held(l, b)| + 1;
    var none: set<Token> := {};
    assert |none + {r.token}| == 1;
  }

  /** So every token that is new is accepted among the first 100001 requests. */
  lemma EarlyTokenIsAccepted(rs: seq<Request>, j: nat, retain: u64)
    requires j < |rs| && j <= 100_000
    requires forall i :: 0 <= i < j && rs[i].token == rs[j].token ==> !Accepted(rs, i, retain)
    ensures Accepted(rs, j, retain)
  {
    HeldSize(rs[..j], Bucket(rs[j].ts), retain);
    FreshTokenIsAccepted(rs, j, retain);
  }

  /** Requests i and j present the same token and both are accepted. */
  predicate Replayed(rs: seq<Request>, i: nat, j: nat, retain: u64) {
    i < j < |rs| && rs[i].token == rs[j].token && Accepted(rs, i, retain) && Accepted(rs, j, retain)
  }

  /** No gated run over a clock with that jitter ever accepts a token twice. */
  ghost predicate AcceptsOnce(tol: u64, jitter: nat) {
    forall rs: seq<Request>, clock: seq<u64>, i: nat, j: nat ::
      Gated(rs, clock, tol) && JitterAtMost(clock, jitter) && StampedOnce(rs) ==> !Replayed(rs, i, j, RetainFor(tol))
  }

  /** A token far ahead evicts another, and that one, presented again, clears the cache and is accepted. */
  lemma FarTokenEvicts(retain: u64, ts: u64, top: u64, t: Token, far: Token)
    requires SaturatingAdd(Bucket(ts), retain) < Bucket(top) && t != far
    ensures Replayed([Request(ts, t), Request(top, far), Request(ts, t)], 0, 2, retain)
  {
    var rs := [Request(ts, t), Request(top, far), Request(ts, t)];
    assert rs[..0] == [];
    AfterPrefix(rs, 0, retain);
    AfterPrefix(rs, 1, retain);
    hide Evict;
    assert After(rs[..0], retain) == EMPTY;
    assert After(rs[..1], retain).hwm == Bucket(ts);
    assert After(rs[..2], retain).hwm == Bucket(top);
    assert ResetAt(rs, 2, retain);
    AcceptedExactly(rs, 2, retain);
    FirstIsAccepted(Request(ts, t), retain);
  }

  lemma FirstIsAccepted(r: Request, retain: u64)
    ensures Step(EMPTY, r, retain).1
  {
  }

  /** One second more than the bound, and a token is let in again. */
  lemma LargerRollbackReplays(tol: u64, jitter: nat, t: Token, far: Token)
    requires 2 * tol + 60 <= U64_MAX && jitter > JitterBound(tol) && t != far
    ensures !AcceptsOnce(tol, jitter)
  {
    RetainCovers(tol);
    hide RetainFor, Accepted, Replayed;
    var retain := RetainFor(tol);
    var top := 10 * (retain + 1);
    var high, low := top - tol, top - tol - JitterBound(tol) - 1;
    assert low - tol == 9;
    var rs := [Request(9, t), Request(top, far), Request(9, t)];
    var clock := [low, high, low];
    assert Gated(rs, clock, tol) && JitterAtMost(clock, jitter) && StampedOnce(rs);
    FarTokenEvicts(retain, 9, top, t, far);
  }

  /**
   A token is accepted at most once in every run, and the reset branch out of reach, exactly when the clock rolls
   back by at most the bound.
   */
  lemma JitterBoundIsExact(tol: u64, jitter: nat)
    requires 2 * tol + 60 <= U64_MAX
    ensures AcceptsOnce(tol, jitter) <==> jitter <= JitterBound(tol)
    ensures NeverResets(tol, jitter) <==> jitter <= JitterBound(tol)
  {
    if jitter <= JitterBound(tol) {
      forall rs, clock, k: nat | Gated(rs, clock, tol) && JitterAtMost(clock, jitter) && k < |rs|
        ensures !ResetAt(rs, k, RetainFor(tol))
      {
        SteadyClockNeverResets(rs, clock, tol, k);
      }
      forall rs: seq<Request>, clock: seq<u64>, i: nat, j: nat |
        Gated(rs, clock, tol) && JitterAtMost(clock, jitter) && StampedOnce(rs)
        ensures !Replayed(rs, i, j, RetainFor(tol))
      {
        if Replayed(rs, i, j, RetainFor(tol)) {
          SteadyClockAcceptsOnce(rs, clock, tol, i, j);
        }
      }
    } else {
      LargerRollbackResets(tol, jitter);
      LargerRollbackReplays(tol, jitter, [], [0]);
    }
  }
}
