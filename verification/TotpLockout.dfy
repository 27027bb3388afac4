/**
 * The second-factor lockout row: one conditional UPDATE reserves an attempt, the fifth sets a lock,
 * and a lock that has run out restarts the count.
 */
module TotpLockout {
  import opened Common

  const MAX_FAILED_TOTP_ATTEMPTS := 5
  const LOCKOUT_MS := 300000

  datatype Row = Row(failed: int, lockedUntil: Option<int>)

  const CLEARED := Row(0, None)

  predicate Admits(row: Row, now: int) {
    row.lockedUntil.None? || row.lockedUntil.value <= now
  }

  /** The row after an admitted attempt. */
  function Reserve(row: Row, now: int): Row {
    var attempts := if row.lockedUntil.None? then row.failed + 1 else 1;
    Row(attempts, if attempts >= MAX_FAILED_TOTP_ATTEMPTS then Some(now + LOCKOUT_MS) else None)
  }

  class LockoutRow {
    var failed: int
    var lockedUntil: Option<int>

    function State(): Row
      reads this
    {
      Row(failed, lockedUntil)
    }

    constructor ()
      ensures State() == CLEARED
    {
      failed, lockedUntil := 0, None;
    }

    /** One statement; nothing changes and the caller gets a 429 when the WHERE clause does not hold. */
    method ReserveTotpAttempt(now: int) returns (reserved: bool)
      modifies this
      ensures reserved == Admits(old(State()), now)
      ensures State() == if reserved then Reserve(old(State()), now) else old(State())
    {
      if !(lockedUntil == None || lockedUntil.value <= now) {
        return false;
      }
      var attempts := if lockedUntil == None then failed + 1 else 1;
      failed, lockedUntil := attempts,
        if attempts >= MAX_FAILED_TOTP_ATTEMPTS then Some(now + LOCKOUT_MS) else None;
      return true;
    }

    /** The update that follows a successful verify. */
    method ClearAttempts()
      modifies this
      ensures State() == CLEARED
    {
      failed, lockedUntil := 0, None;
    }
  }

  // ---------------------------------------------------------------- runs without a successful verify

  /** What every reachable row satisfies: fewer than five counted, or a lock is set. */
  ghost predicate Counted(row: Row) {
    row.lockedUntil.None? ==> 0 <= row.failed < MAX_FAILED_TOTP_ATTEMPTS
  }

  lemma ReachableCounted(row: Row, now: int)
    requires Counted(row)
    ensures Counted(CLEARED) && Counted(Reserve(row, now))
  {
  }

  /** The times of the admitted attempts among the attempts made. */
  function Granted(row: Row, times: seq<int>): seq<int>
    decreases |times|
  {
    if times == [] then []
    else if Admits(row, times[0]) then [times[0]] + Granted(Reserve(row, times[0]), times[1..])
    else Granted(row, times[1..])
  }

  ghost predicate NonDecreasing(times: seq<int>) {
    forall i :: 0 <= i < |times| - 1 ==> times[i] <= times[i + 1]
  }

  lemma {:induction false} Ordered(times: seq<int>, i: nat, j: nat)
    requires NonDecreasing(times) && i <= j < |times|
    ensures times[i] <= times[j]
    decreases j - i
  {
    if i < j {
      Ordered(times, i, j - 1);
    }
  }

  /** Admitted attempts keep their order, and none comes before the lock has run out. */
  lemma {:induction false} GrantedInOrder(row: Row, times: seq<int>)
    requires NonDecreasing(times)
    ensures NonDecreasing(Granted(row, times))
    ensures forall k :: 0 <= k < |Granted(row, times)| ==> times != [] && times[0] <= Granted(row, times)[k]
    ensures Granted(row, times) != [] && row.lockedUntil.Some? ==> Granted(row, times)[0] >= row.lockedUntil.value
    decreases |times|
  {
    if times != [] {
      assert NonDecreasing(times[1..]);
      GrantedInOrder(if Admits(row, times[0]) then Reserve(row, times[0]) else row, times[1..]);
    }
  }

  /** How many more attempts the row admits before it locks. */
  function Left(row: Row): int {
    if row.lockedUntil.Some? then MAX_FAILED_TOTP_ATTEMPTS else MAX_FAILED_TOTP_ATTEMPTS - row.failed
  }

  /** The attempt after the next lock comes at least a lockout after the one that set it. */
  lemma {:induction false} LockSeparates(row: Row, times: seq<int>)
    requires Counted(row) && NonDecreasing(times)
    requires |Granted(row, times)| > Left(row)
    ensures 1 <= Left(row) <= 5
    ensures var g, n := Granted(row, times), Left(row); g[n] >= g[n - 1] + LOCKOUT_MS
    decreases |times|
  {
    assert NonDecreasing(times[1..]);
    if Admits(row, times[0]) {
      var after := Reserve(row, times[0]);
      var g, rest := Granted(row, times), Granted(after, times[1..]);
      assert g == [times[0]] + rest;
      if Left(row) == 1 {
        GrantedInOrder(after, times[1..]);
      } else {
        LockSeparates(after, times[1..]);
      }
    } else {
      LockSeparates(row, times[1..]);
    }
  }

  /** From the second admitted attempt on, the row is the one the first left behind. */
  lemma {:induction false} GrantedTail(row: Row, times: seq<int>) returns (after: Row, later: seq<int>)
    requires Counted(row) && NonDecreasing(times) && Granted(row, times) != []
    ensures Counted(after) && NonDecreasing(later) && |later| < |times|
    ensures Granted(after, later) == Granted(row, times)[1..]
    decreases |times|
  {
    assert NonDecreasing(times[1..]);
    if Admits(row, times[0]) {
      after, later := Reserve(row, times[0]), times[1..];
    } else {
      after, later := GrantedTail(row, times[1..]);
    }
  }

  /** The attempt five places after any admitted one is at least a lockout later. */
  lemma {:induction false} FifthIsLater(row: Row, times: seq<int>, k: nat)
    requires Counted(row) && NonDecreasing(times) && k + 5 < |Granted(row, times)|
    ensures Granted(row, times)[k + 5] >= Granted(row, times)[k] + LOCKOUT_MS
    decreases |times|
  {
    if k > 0 {
      var after, later := GrantedTail(row, times);
      FifthIsLater(after, later, k - 1);
    } else {
      var g := Granted(row, times);
      LockSeparates(row, times);
      GrantedInOrder(row, times);
      Ordered(g, 0, Left(row) - 1);
      Ordered(g, Left(row), 5);
    }
  }

  lemma {:induction false} EveryFifth(row: Row, times: seq<int>, q: nat)
    requires Counted(row) && NonDecreasing(times) && 5 * q < |Granted(row, times)|
    ensures Granted(row, times)[5 * q] >= Granted(row, times)[0] + q * LOCKOUT_MS
  {
    if q > 0 {
      EveryFifth(row, times, q - 1);
      FifthIsLater(row, times, 5 * (q - 1));
    }
  }

  /** Any span of time T admits at most 5 * (T / 5 minutes + 1) attempts, from any reachable row. */
  lemma AttemptsInSpan(row: Row, times: seq<int>, span: nat)
    requires Counted(row) && NonDecreasing(times)
    requires times != [] ==> times[|times| - 1] - times[0] <= span
    ensures |Granted(row, times)| <= MAX_FAILED_TOTP_ATTEMPTS * (span / LOCKOUT_MS + 1)
  {
    var g, q := Granted(row, times), span / LOCKOUT_MS + 1;
    if |g| > 5 * q {
      EveryFifth(row, times, q);
      GrantedInOrder(row, times);
      GrantedAreAttempts(row, times, 5 * q);
    }
  }

  lemma {:induction false} GrantedAreAttempts(row: Row, times: seq<int>, k: nat)
    requires NonDecreasing(times) && k < |Granted(row, times)|
    ensures times != [] && Granted(row, times)[k] <= times[|times| - 1]
    decreases |times|
  {
    assert NonDecreasing(times[1..]);
    if Admits(row, times[0]) {
      if k == 0 {
        Ordered(times, 0, |times| - 1);
      } else {
        GrantedAreAttempts(Reserve(row, times[0]), times[1..], k - 1);
      }
    } else {
      GrantedAreAttempts(row, times[1..], k);
    }
  }

  /** Some attempts at once at time t, and five more as each of the next lockouts runs out. */
  function Bursts(t: int, attempts: nat, lockouts: nat): seq<int>
    decreases lockouts, attempts
  {
    if attempts > 0 then [t] + Bursts(t, attempts - 1, lockouts)
    else if lockouts > 0 then Bursts(t + LOCKOUT_MS, MAX_FAILED_TOTP_ATTEMPTS, lockouts - 1)
    else []
  }

  /** From a row with room for just these attempts, every one of a burst gets in. */
  lemma {:induction false} BurstsGranted(row: Row, t: int, attempts: nat, lockouts: nat)
    requires if attempts == 0 then row == Row(MAX_FAILED_TOTP_ATTEMPTS, Some(t + LOCKOUT_MS))
             else attempts <= 5 && Admits(row, t) && (if row.lockedUntil.Some? then attempts == 5 else row.failed == 5 - attempts)
    ensures Granted(row, Bursts(t, attempts, lockouts)) == Bursts(t, attempts, lockouts)
    decreases lockouts, attempts
  {
    if attempts > 0 {
      var rest := Bursts(t, attempts - 1, lockouts);
      assert ([t] + rest)[1..] == rest;
      BurstsGranted(Reserve(row, t), t, attempts - 1, lockouts);
    } else if lockouts > 0 {
      BurstsGranted(row, t + LOCKOUT_MS, MAX_FAILED_TOTP_ATTEMPTS, lockouts - 1);
    }
  }

  lemma {:induction false} BurstsSpan(t: int, attempts: nat, lockouts: nat)
    ensures var b := Bursts(t, attempts, lockouts);
            && |b| == attempts + 5 * lockouts && NonDecreasing(b)
            && (b != [] ==> t <= b[0] && b[|b| - 1] == t + lockouts * LOCKOUT_MS)
            && (attempts > 0 ==> b[0] == t)
    decreases lockouts, attempts
  {
    if attempts > 0 {
      BurstsSpan(t, attempts - 1, lockouts);
    } else if lockouts > 0 {
      BurstsSpan(t + LOCKOUT_MS, MAX_FAILED_TOTP_ATTEMPTS, lockouts - 1);
    }
  }

  /** The bound is tight: for every number of lockouts some attempts spanning just that time reach it. */
  lemma BoundIsReached(lockouts: nat)
    ensures var b, span := Bursts(0, 5, lockouts), lockouts * LOCKOUT_MS;
            && |b| > 0 && NonDecreasing(b) && b[|b| - 1] - b[0] == span
            && |Granted(CLEARED, b)| == MAX_FAILED_TOTP_ATTEMPTS * (span / LOCKOUT_MS + 1)
  {
    hide Granted, Bursts, NonDecreasing;
    BurstsGranted(CLEARED, 0, 5, lockouts);
    BurstsSpan(0, 5, lockouts);
  }

  /** Four attempts in a row from a cleared row leave it open; the fifth, at time t, closes it until five minutes later. */
  lemma FifthLocks(times: seq<int>, t: int)
    requires |times| == 5 && times[4] == t
    ensures var r1 := Reserve(CLEARED, times[0]);
            var r2 := Reserve(r1, times[1]);
            var r3 := Reserve(r2, times[2]);
            var r4 := Reserve(r3, times[3]);
            var r5 := Reserve(r4, t);
            && (forall now :: Admits(r1, now) && Admits(r2, now) && Admits(r3, now) && Admits(r4, now))
            && (forall now :: Admits(r5, now) <==> now >= t + 5 * 60 * 1000)
  {
  }
}
