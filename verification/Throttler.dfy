/**
 * The rate-limit script on one key: a hit counter with a window, a block period, and Redis key expiry.
 * Times are milliseconds of the Redis server clock.
 */
module Throttler {
  import opened Common
  import opened Rounding

  datatype Config = Config(ttl: int, limit: int, blockDuration: int)

  datatype Key =
    | Absent
    | Held(hits: int, expiresAt: int, blockExpiresAt: int, isBlocked: bool, keyExpiresAt: int)

  datatype Record = Record(totalHits: int, timeToExpire: int, isBlocked: bool, timeToBlockExpire: int)

  function CeilSeconds(ms: int): (s: int)
    ensures 1000 * (s - 1) < ms <= 1000 * s
  {
    (ms + 999) / 1000
  }

  // ---------------------------------------------------------------- what one hit does

  /** A hit that starts the count over: the key is gone, or its block has run out. */
  predicate Restarts(k: Key, now: int, c: Config) {
    k.Absent? || (k.isBlocked && k.blockExpiresAt <= now)
  }

  /** The key after a hit at `now`, expiry of the key having been settled before. */
  function Hit(k: Key, now: int, c: Config): (r: Key)
    ensures r.Held?
  {
    if Restarts(k, now, c) then
      if c.limit < 1 && k.Absent? then Blocked(1, now + c.ttl, now, c)
      else Counting(1, now + c.ttl, now)
    else
      var expiresAt := if k.expiresAt <= now then now + c.ttl else k.expiresAt;
      if k.isBlocked then
        Held(k.hits, expiresAt, k.blockExpiresAt, true, Max(Max(expiresAt, k.blockExpiresAt), now + 1000))
      else if k.hits + 1 > c.limit then Blocked(k.hits + 1, expiresAt, now, c)
      else Held(k.hits + 1, expiresAt, k.blockExpiresAt, false, Max(Max(expiresAt, k.blockExpiresAt), now + 1000))
  }

  function Counting(hits: int, expiresAt: int, now: int): Key {
    Held(hits, expiresAt, 0, false, Max(Max(expiresAt, 0), now + 1000))
  }

  /** Crossing the limit blocks; a block of no duration is over at once and leaves a single hit. */
  function Blocked(hits: int, expiresAt: int, now: int, c: Config): Key {
    var blockExpiresAt := now + c.blockDuration;
    if c.blockDuration <= 0 then Counting(1, now + c.ttl, now)
    else Held(hits, expiresAt, blockExpiresAt, true, Max(Max(expiresAt, blockExpiresAt), now + 1000))
  }

  class RedisThrottlerStorage {
    var key: Key

    constructor ()
      ensures key == Absent
    {
      key := Absent;
    }

    /** The script; `gone` says that Redis has expired the key by now. */
    method Increment(now: int, gone: bool, c: Config) returns (r: Record)
      modifies this
      ensures key == Hit(if gone then Absent else old(key), now, c)
      ensures r.totalHits == key.hits && r.isBlocked == key.isBlocked
      ensures r.timeToExpire == CeilSeconds(key.expiresAt - now)
      ensures r.timeToBlockExpire == if key.isBlocked then CeilSeconds(key.blockExpiresAt - now) else 0
    {
      hide CeilSeconds;
      var hits, expiresAt, blockExpiresAt, isBlocked := 0, now + c.ttl, 0, false;
      if !gone && key.Held? {
        hits, expiresAt, blockExpiresAt, isBlocked := key.hits, key.expiresAt, key.blockExpiresAt, key.isBlocked;
      }
      if expiresAt <= now {
        expiresAt := now + c.ttl;
      }
      if !isBlocked {
        hits := hits + 1;
      }
      if hits > c.limit && !isBlocked {
        isBlocked := true;
        blockExpiresAt := now + c.blockDuration;
      }
      var timeToBlockExpire := 0;
      if isBlocked {
        timeToBlockExpire := blockExpiresAt - now;
        if timeToBlockExpire <= 0 {
          isBlocked := false;
          hits := 1;
          expiresAt := now + c.ttl;
          blockExpiresAt := 0;
          timeToBlockExpire := 0;
        }
      }
      var pttl := Max(Max(expiresAt - now, blockExpiresAt - now), 1000);
      key := Held(hits, expiresAt, blockExpiresAt, isBlocked, now + pttl);
      return Record(hits, CeilSeconds(expiresAt - now), isBlocked, CeilSeconds(timeToBlockExpire));
    }
  }

  // ---------------------------------------------------------------- runs

  /** A hit and whether Redis had expired the key when it came. */
  datatype Call = Call(now: int, gone: bool)

  /** Redis may drop a key from its expiry time on and must have dropped it after that. */
  predicate Legal(k: Key, call: Call) {
    k.Held? ==> (call.gone ==> call.now >= k.keyExpiresAt) && (call.now > k.keyExpiresAt ==> call.gone)
  }

  function After(k: Key, call: Call, c: Config): Key {
    Hit(if call.gone then Absent else k, call.now, c)
  }

  /** Calls at times from `from` to `end`, in order, with key expiry as Redis allows it. */
  ghost predicate LegalRun(k: Key, calls: seq<Call>, from: int, end: int, c: Config)
    decreases |calls|
  {
    calls == [] ||
    (from <= calls[0].now <= end && Legal(k, calls[0])
     && LegalRun(After(k, calls[0], c), calls[1..], calls[0].now, end, c))
  }

  /** The hits that go through. */
  function Admitted(k: Key, calls: seq<Call>, c: Config): nat
    decreases |calls|
  {
    if calls == [] then 0
    else
      var after := After(k, calls[0], c);
      (if after.isBlocked then 0 else 1) + Admitted(after, calls[1..], c)
  }

  ghost predicate Sensible(c: Config) {
    c.limit >= 1 && c.ttl > 0 && c.blockDuration > 0
  }

  /** The shortest time between two restarts. */
  function Gap(c: Config): int {
    Min(c.ttl, c.blockDuration)
  }

  /** Every reachable key: counting since a restart at time r, or blocked since after it. */
  ghost predicate Since(k: Key, r: int, c: Config) {
    && k.Held?
    && k.expiresAt >= r + c.ttl && k.keyExpiresAt >= k.expiresAt
    && 1 <= k.hits
    && (if k.isBlocked then k.hits == c.limit + 1 && k.keyExpiresAt >= k.blockExpiresAt >= r + c.blockDuration
        else k.hits <= c.limit)
  }

  /** How many hits of the current count have gone through. */
  function Used(k: Key, c: Config): int {
    if k.Absent? then c.limit else Min(k.hits, c.limit)
  }

  /** The count restarts no earlier than a gap after it last did. */
  lemma RestartsAreApart(k: Key, r: int, call: Call, c: Config)
    requires Sensible(c) && Since(k, r, c) && Legal(k, call) && r <= call.now
    ensures var seen := if call.gone then Absent else k;
            if Restarts(seen, call.now, c)
            then call.now >= r + Gap(c) && Since(After(k, call, c), call.now, c) && After(k, call, c).hits == 1
            else Since(After(k, call, c), r, c)
  {
  }

  lemma FirstHitStarts(call: Call, c: Config)
    requires Sensible(c)
    ensures Since(After(Absent, call, c), call.now, c) && After(Absent, call, c).hits == 1
  {
  }

  /** Between restarts at most `limit` hits go through: each one that does uses one up. */
  lemma OneHit(k: Key, r: int, call: Call, c: Config)
    requires Sensible(c) && Since(k, r, c) && Legal(k, call) && r <= call.now
    requires !Restarts(if call.gone then Absent else k, call.now, c)
    ensures Used(After(k, call, c), c) == Used(k, c) + if After(k, call, c).isBlocked then 0 else 1
  {
  }

  /** A full count for every gap that fits into some time. */
  function Allowance(time: int, c: Config): int
    requires Sensible(c)
  {
    c.limit * (time / Gap(c))
  }

  lemma AllowanceOrder(long: int, short: int, c: Config)
    requires Sensible(c) && short <= long
    ensures Allowance(short, c) <= Allowance(long, c)
    ensures short >= 0 ==> Allowance(short, c) >= 0
    ensures short + Gap(c) <= long ==> Allowance(short, c) + c.limit <= Allowance(long, c)
  {
    CountsInTime(c.limit, long, short, Gap(c));
  }

  lemma CountsInTime(limit: int, long: int, short: int, gap: int)
    requires limit >= 0 && gap > 0 && short <= long
    ensures limit * (short / gap) <= limit * (long / gap)
    ensures short >= 0 ==> limit * (short / gap) >= 0
    ensures short + gap <= long ==> limit * (short / gap) + limit <= limit * (long / gap)
  {
    DivMod(short, gap);
    var q, p := short / gap, long / gap;
    QuotientAtLeast(long, gap, q);
    QuotientAtLeast(long, gap, q + 1);
    assert (q + 1) * gap == q * gap + gap;
    Steps(q, p, limit);
    assert limit * q == q * limit && limit * p == p * limit;
  }

  /** From a restart at r until `end`: the rest of this count, and a full count for every gap that fits. */
  lemma {:induction false} AdmittedSince(k: Key, r: int, calls: seq<Call>, from: int, end: int, c: Config)
    requires Sensible(c) && Since(k, r, c) && r <= from <= end
    requires LegalRun(k, calls, from, end, c)
    ensures Admitted(k, calls, c) <= c.limit - Used(k, c) + Allowance(end - r, c)
    decreases |calls|
  {
    hide Hit, Allowance;
    AllowanceOrder(end - r, end - r, c);
    if calls != [] {
      var t, after := calls[0].now, After(k, calls[0], c);
      RestartsAreApart(k, r, calls[0], c);
      if Restarts(if calls[0].gone then Absent else k, t, c) {
        AdmittedSince(after, t, calls[1..], t, end, c);
        AllowanceOrder(end - r, end - t, c);
      } else {
        AdmittedSince(after, r, calls[1..], t, end, c);
        OneHit(k, r, calls[0], c);
      }
    }
  }

  /** From any reachable key: what is left of the current count, then full counts a gap apart. */
  lemma {:induction false} AdmittedFrom(k: Key, r: int, calls: seq<Call>, start: int, from: int, end: int, c: Config)
    requires Sensible(c) && (k.Absent? || (Since(k, r, c) && r <= from)) && start <= from <= end
    requires LegalRun(k, calls, from, end, c)
    ensures Admitted(k, calls, c) <= c.limit - Used(k, c) + Allowance(end - start, c) + c.limit
    decreases |calls|
  {
    hide Hit, Allowance;
    AllowanceOrder(end - start, end - start, c);
    if calls != [] {
      var t, after := calls[0].now, After(k, calls[0], c);
      if k.Absent? {
        FirstHitStarts(calls[0], c);
      } else {
        RestartsAreApart(k, r, calls[0], c);
      }
      if Restarts(if calls[0].gone then Absent else k, t, c) {
        AdmittedSince(after, t, calls[1..], t, end, c);
        AllowanceOrder(end - start, end - t, c);
      } else {
        AdmittedFrom(after, r, calls[1..], start, t, end, c);
        OneHit(k, r, calls[0], c);
      }
    }
  }

  lemma TwoMoreCounts(limit: int, q: int, used: int, admitted: int)
    requires admitted <= limit - used + limit * q + limit && used >= 0
    ensures admitted <= limit * (q + 2)
  {
    assert limit * (q + 2) == limit * q + 2 * limit;
  }

  lemma SpanFrom(k: Key, r: int, calls: seq<Call>, start: int, span: nat, c: Config)
    requires Sensible(c) && (k.Absent? || (Since(k, r, c) && r <= start))
    requires LegalRun(k, calls, start, start + span, c)
    ensures Admitted(k, calls, c) <= c.limit * (span / Gap(c) + 2)
  {
    hide LegalRun, Admitted;
    AdmittedFrom(k, r, calls, start, start, start + span, c);
    TwoMoreCounts(c.limit, span / Gap(c), Used(k, c), Admitted(k, calls, c));
  }

  /** The key after some calls. */
  function Final(k: Key, calls: seq<Call>, c: Config): Key
    decreases |calls|
  {
    if calls == [] then k else Final(After(k, calls[0], c), calls[1..], c)
  }

  lemma {:induction false} SinceAlongRun(k: Key, r: int, calls: seq<Call>, from: int, end: int, c: Config)
    returns (last: int)
    requires Sensible(c) && Since(k, r, c) && r <= from <= end
    requires LegalRun(k, calls, from, end, c)
    ensures last <= end && Since(Final(k, calls, c), last, c)
    decreases |calls|
  {
    hide Hit;
    if calls == [] {
      last := r;
    } else {
      var t := calls[0].now;
      RestartsAreApart(k, r, calls[0], c);
      last := SinceAlongRun(After(k, calls[0], c), if Restarts(if calls[0].gone then Absent else k, t, c) then t else r,
                            calls[1..], t, end, c);
    }
  }

  /** After any calls on a key that did not exist, it is counting or blocked since some restart, or was never used. */
  lemma ReachableKeys(calls: seq<Call>, from: int, end: int, c: Config) returns (r: int)
    requires Sensible(c) && from <= end && LegalRun(Absent, calls, from, end, c)
    ensures r <= end
    ensures if calls == [] then Final(Absent, calls, c) == Absent else Since(Final(Absent, calls, c), r, c)
  {
    hide Hit;
    if calls == [] {
      r := end;
    } else {
      FirstHitStarts(calls[0], c);
      r := SinceAlongRun(After(Absent, calls[0], c), calls[0].now, calls[1..], calls[0].now, end, c);
    }
  }

  /** Whatever came before, any span of time T admits at most limit * (T / gap + 2) hits. */
  lemma HitsInSpan(history: seq<Call>, begin: int, calls: seq<Call>, start: int, span: nat, c: Config)
    requires Sensible(c) && begin <= start && LegalRun(Absent, history, begin, start, c)
    requires LegalRun(Final(Absent, history, c), calls, start, start + span, c)
    ensures Admitted(Final(Absent, history, c), calls, c) <= c.limit * (span / Gap(c) + 2)
  {
    hide LegalRun, Admitted, Final;
    var r := ReachableKeys(history, begin, start, c);
    SpanFrom(Final(Absent, history, c), r, calls, start, span, c);
  }

  // ---------------------------------------------------------------- exactly what a window and a block do

  ghost predicate AllBefore(calls: seq<Call>, end: int) {
    forall i :: 0 <= i < |calls| ==> calls[i].now < end
  }

  /** Hits of one window, counted from h on: admitted up to the limit, and the next one blocks for the block's length. */
  lemma {:induction false} CountingOn(k: Key, h: int, e: int, calls: seq<Call>, from: int, end: int, c: Config)
    requires Sensible(c) && k.Held? && k.hits == h && k.expiresAt == e && k.blockExpiresAt == 0 && !k.isBlocked
    requires k.keyExpiresAt >= e && from >= 0 && 1 <= h && h + |calls| <= c.limit + 1
    requires LegalRun(k, calls, from, end, c) && AllBefore(calls, e)
    ensures var last := Final(k, calls, c);
            && last.Held? && last.hits == h + |calls| && last.expiresAt == e
            && (h + |calls| <= c.limit ==> !last.isBlocked && Admitted(k, calls, c) == |calls|)
            && (h + |calls| == c.limit + 1 && calls != [] ==>
                  && last.isBlocked && last.blockExpiresAt == calls[|calls| - 1].now + c.blockDuration
                  && Admitted(k, calls, c) == |calls| - 1)
    decreases |calls|
  {
    if calls != [] {
      assert forall i :: 0 <= i < |calls[1..]| ==> calls[1..][i] == calls[i + 1];
      assert calls[0].now < e;
      if h < c.limit {
        CountingOn(After(k, calls[0], c), h + 1, e, calls[1..], calls[0].now, end, c);
      } else {
        assert calls[1..] == [];
      }
    }
  }

  /**
   * The limit is exact: of the hits on a new key within its first `ttl`, the first `limit` are admitted and the next
   * one is not; it blocks the key until `blockDuration` after it.
   */
  lemma WindowAdmitsExactlyLimit(calls: seq<Call>, from: int, end: int, c: Config)
    requires Sensible(c) && from >= 0 && 1 <= |calls| <= c.limit + 1 && LegalRun(Absent, calls, from, end, c)
    requires AllBefore(calls, calls[0].now + c.ttl)
    ensures var last := Final(Absent, calls, c);
            && last.Held? && last.hits == |calls| && last.expiresAt == calls[0].now + c.ttl
            && (|calls| <= c.limit ==> !last.isBlocked && Admitted(Absent, calls, c) == |calls|)
            && (|calls| == c.limit + 1 ==>
                  && last.isBlocked && last.blockExpiresAt == calls[|calls| - 1].now + c.blockDuration
                  && Admitted(Absent, calls, c) == c.limit)
  {
    var first := After(Absent, calls[0], c);
    assert forall i :: 0 <= i < |calls[1..]| ==> calls[1..][i] == calls[i + 1];
    CountingOn(first, 1, calls[0].now + c.ttl, calls[1..], calls[0].now, end, c);
  }

  /** While a block lasts nothing is admitted and its end does not move, however often it is tried. */
  lemma {:induction false} BlockHolds(k: Key, r: int, calls: seq<Call>, from: int, end: int, c: Config)
    requires Sensible(c) && Since(k, r, c) && k.isBlocked && r <= from
    requires LegalRun(k, calls, from, end, c) && AllBefore(calls, k.blockExpiresAt)
    ensures var last := Final(k, calls, c);
            last.Held? && last.isBlocked && last.blockExpiresAt == k.blockExpiresAt && Since(last, r, c)
    ensures Admitted(k, calls, c) == 0
    decreases |calls|
  {
    if calls != [] {
      assert forall i :: 0 <= i < |calls[1..]| ==> calls[1..][i] == calls[i + 1];
      assert calls[0].now < k.blockExpiresAt;
      RestartsAreApart(k, r, calls[0], c);
      BlockHolds(After(k, calls[0], c), r, calls[1..], calls[0].now, end, c);
    }
  }

  /** And it ends on time: the first hit from its end on is admitted, as the first of a new window. */
  lemma BlockEnds(k: Key, r: int, call: Call, c: Config)
    requires Sensible(c) && Since(k, r, c) && k.isBlocked && Legal(k, call) && r <= call.now
    ensures var after := After(k, call, c);
            after.isBlocked <==> call.now < k.blockExpiresAt
    ensures call.now >= k.blockExpiresAt ==>
              After(k, call, c).hits == 1 && After(k, call, c).expiresAt == call.now + c.ttl
  {
  }

  /** Without a positive block duration nothing is ever blocked: crossing the limit starts the count over. */
  lemma NoDurationNoBlock(k: Key, call: Call, c: Config)
    requires c.blockDuration <= 0 && (k.Held? ==> !k.isBlocked)
    ensures !After(k, call, c).isBlocked
    ensures k.Held? && !call.gone && k.hits >= c.limit ==>
              After(k, call, c).hits == 1 && After(k, call, c).expiresAt == call.now + c.ttl
  {
  }

  /** With a limit below one the first hit on a new key is blocked, if blocks last at all. */
  lemma ZeroLimitBlocks(call: Call, c: Config)
    requires c.limit < 1
    ensures After(Absent, call, c).isBlocked <==> c.blockDuration > 0
    ensures c.blockDuration > 0 ==> After(Absent, call, c).blockExpiresAt == call.now + c.blockDuration
  {
  }

  // ---------------------------------------------------------------- where the window does not reset

  /**
   * The window is meant to reset once it has expired. The script only moves `expiresAt` and leaves the
   * reset to key expiry, which is never sooner than a second after the last hit: a hit on an expired
   * window starts a new count if and only if the key is gone, so not within a second of the one before.
   */
  lemma ExpiredWindowResetsIff(before: Key, w: int, call: Call, c: Config)
    requires Sensible(c) && w >= 0
    requires Hit(before, w, c).hits >= 1 && !Hit(before, w, c).isBlocked && Hit(before, w, c).blockExpiresAt == 0
    requires Legal(Hit(before, w, c), call) && call.now >= Hit(before, w, c).expiresAt
    requires call.now != w + 1000 && call.now != Hit(before, w, c).expiresAt
    ensures call.gone <==> call.now > w + 1000
    ensures After(Hit(before, w, c), call, c).hits == 1 <==> call.now > w + 1000
  {
  }

  /** So three hits in two windows can cross a limit of two: the third still counts the first. */
  lemma LateHitsCarryOver()
    ensures var c := Config(10000, 2, 60000);
            var k1 := Hit(Absent, 0, c);
            var k2 := Hit(k1, 9500, c);
            && k2.expiresAt == 10000 && k2.keyExpiresAt == 10500
            && Legal(k2, Call(10400, false))
            && After(k2, Call(10400, false), c).isBlocked
  {
  }
}
