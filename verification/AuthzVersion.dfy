/**
 * The cached session version: a database counter per user, a shared cache key raised by
 * set-if-greater, and readers, bumps, publishes, expiries and failures interleaving step by step.
 */
module AuthzVersion {
  import opened Common

  /** The Lua script: keep the larger of what is there and what comes in. */
  function SetMax(cached: Option<nat>, v: nat): (held: nat)
    ensures held >= v && (held == v || cached == Some(held))
    ensures cached.Some? ==> held >= cached.value
  {
    if cached.None? || cached.value < v then v else cached.value
  }

  // ---------------------------------------------------------------- the protocol for one user's key

  /** A read in flight, with the highest version published when it started. */
  datatype Reader =
    | Missed(floor: nat)
    | Direct(floor: nat)
    | Filling(floor: nat, seen: nat)

  datatype Answer = Answer(floor: nat, value: nat)

  /**
   * `floor` is the highest version whose publish has completed; `unpublished` are the versions some
   * writer has committed and has yet to publish; `answers` are the completed reads.
   */
  datatype Sys = Sys(db: nat, cache: Option<nat>, floor: nat, unpublished: set<nat>, readers: map<nat, Reader>,
                     answers: seq<Answer>)

  datatype Action =
    | Bump
    | PublishOk(v: nat)
    | PublishDeleted(v: nat)
    | PublishLost(v: nat)
    | Drop
    | ReadHit
    | ReadMiss(id: nat)
    | ReadUnavailable(id: nat)
    | ReadDatabase(id: nat)
    | Fill(id: nat)
    | FillFailed(id: nat)

  /** An action can happen here: a publish needs its committed bump, a cache step its cache content. */
  predicate Enabled(s: Sys, a: Action) {
    match a
    case PublishOk(v) => v in s.unpublished
    case PublishDeleted(v) => v in s.unpublished
    case PublishLost(v) => v in s.unpublished
    case ReadHit => s.cache.Some?
    case ReadMiss(id) => s.cache.None? && id !in s.readers
    case ReadUnavailable(id) => id !in s.readers
    case ReadDatabase(id) => id in s.readers && !s.readers[id].Filling?
    case Fill(id) => id in s.readers && s.readers[id].Filling?
    case FillFailed(id) => id in s.readers && s.readers[id].Filling?
    case _ => true
  }

  function Apply(s: Sys, a: Action): Sys
    requires Enabled(s, a)
  {
    match a
    case Bump => s.(db := s.db + 1, unpublished := s.unpublished + {s.db + 1})
    // the write went through: SET_MAX
    case PublishOk(v) =>
      s.(cache := Some(SetMax(s.cache, v)), floor := Max(s.floor, v), unpublished := s.unpublished - {v})
    // the write failed and the key was deleted instead
    case PublishDeleted(v) => s.(cache := None, floor := Max(s.floor, v), unpublished := s.unpublished - {v})
    // neither worked: this publish never completed
    case PublishLost(v) => s.(unpublished := s.unpublished - {v})
    // expiry or eviction
    case Drop => s.(cache := None)
    case ReadHit => s.(answers := s.answers + [Answer(s.floor, s.cache.value)])
    case ReadMiss(id) => s.(readers := s.readers[id := Missed(s.floor)])
    case ReadUnavailable(id) => s.(readers := s.readers[id := Direct(s.floor)])
    case ReadDatabase(id) =>
      if s.readers[id].Direct?
      then s.(readers := s.readers - {id}, answers := s.answers + [Answer(s.readers[id].floor, s.db)])
      else s.(readers := s.readers[id := Filling(s.readers[id].floor, s.db)])
    case Fill(id) =>
      var held := SetMax(s.cache, s.readers[id].seen);
      s.(cache := Some(held), readers := s.readers - {id}, answers := s.answers + [Answer(s.readers[id].floor, held)])
    case FillFailed(id) =>
      s.(readers := s.readers - {id}, answers := s.answers + [Answer(s.readers[id].floor, s.readers[id].seen)])
  }

  /** `states` is a run: it starts at s and each step is an enabled action. */
  ghost predicate IsRun(s: Sys, actions: seq<Action>, states: seq<Sys>) {
    && |states| == |actions| + 1
    && states[0] == s
    && forall k :: 0 <= k < |actions| ==> Enabled(states[k], actions[k]) && states[k + 1] == Apply(states[k], actions[k])
  }

  // ---------------------------------------------------------------- the cache never runs ahead

  /** Nothing anywhere exceeds the database version. */
  ghost predicate Bounded(s: Sys) {
    && s.floor <= s.db
    && (s.cache.Some? ==> s.cache.value <= s.db)
    && (forall v :: v in s.unpublished ==> v <= s.db)
    && (forall id :: id in s.readers ==> s.readers[id].floor <= s.floor)
    && (forall id :: id in s.readers && s.readers[id].Filling? ==>
          s.readers[id].floor <= s.readers[id].seen <= s.db)
    && (forall k :: 0 <= k < |s.answers| ==> s.answers[k].value <= s.db)
  }

  lemma StepBounded(s: Sys, a: Action)
    requires Bounded(s) && Enabled(s, a)
    ensures Bounded(Apply(s, a))
  {
  }

  lemma {:induction false} RunBounded(s: Sys, actions: seq<Action>, states: seq<Sys>, k: nat)
    requires Bounded(s) && IsRun(s, actions, states) && k <= |actions|
    ensures Bounded(states[k])
  {
    if k > 0 {
      RunBounded(s, actions, states, k - 1);
      StepBounded(states[k - 1], actions[k - 1]);
    }
  }

  // ---------------------------------------------------------------- and it falls behind in one way only

  /** What a reader may rely on: a cached version is at least every published one. */
  ghost predicate Fresh(s: Sys) {
    s.cache.Some? ==> s.cache.value >= s.floor
  }

  /**
   * A write of an outdated version lands after the key was dropped: a fill that read the database
   * before a bump, or the late publish of one bump after a later one has been published.
   */
  ghost predicate StaleLanding(s: Sys, a: Action)
    requires Enabled(s, a)
  {
    s.cache.None? && ((a.Fill? && s.readers[a.id].seen < s.floor) || (a.PublishOk? && a.v < s.floor))
  }

  lemma FreshStepIff(s: Sys, a: Action)
    requires Enabled(s, a) && Fresh(s)
    ensures Fresh(Apply(s, a)) <==> !StaleLanding(s, a)
  {
  }

  /** Along a whole run the cache stays fresh if and only if no outdated write lands on a dropped key. */
  lemma {:induction false} FreshRunIff(s: Sys, actions: seq<Action>, states: seq<Sys>, n: nat)
    requires Fresh(s) && IsRun(s, actions, states) && n <= |actions|
    ensures (forall k :: 0 <= k <= n ==> Fresh(states[k])) <==> (forall k :: 0 <= k < n ==> !StaleLanding(states[k], actions[k]))
  {
    if n > 0 {
      FreshRunIff(s, actions, states, n - 1);
      if Fresh(states[n - 1]) {
        FreshStepIff(states[n - 1], actions[n - 1]);
      }
      if forall k :: 0 <= k <= n ==> Fresh(states[k]) {
        assert forall k :: 0 <= k <= n - 1 ==> Fresh(states[k]);
        assert Fresh(states[n]);
      }
    }
  }

  ghost predicate Truthful(s: Sys) {
    forall k :: 0 <= k < |s.answers| ==> s.answers[k].value >= s.answers[k].floor
  }

  /** Then every read, however it was served, answers at least every version published before it started. */
  lemma {:induction false} ReadsSeePublishes(s: Sys, actions: seq<Action>, states: seq<Sys>, n: nat)
    requires Bounded(s) && Fresh(s) && Truthful(s) && IsRun(s, actions, states) && n <= |actions|
    requires forall k :: 0 <= k < n ==> !StaleLanding(states[k], actions[k])
    ensures Truthful(states[n])
  {
    if n > 0 {
      ReadsSeePublishes(s, actions, states, n - 1);
      RunBounded(s, actions, states, n - 1);
      FreshRunIff(s, actions, states, n - 1);
      AnswerTruthful(states[n - 1], actions[n - 1]);
    }
  }

  lemma AnswerTruthful(s: Sys, a: Action)
    requires Bounded(s) && Fresh(s) && Truthful(s) && Enabled(s, a)
    ensures Truthful(Apply(s, a))
  {
  }

  const START := Sys(0, None, 0, {}, map[], [])

  const FILL_ACTIONS := [ReadMiss(7), ReadDatabase(7), Bump, PublishOk(1), Drop, Fill(7), ReadHit]

  const FILL_STATES := [
    START,
    START.(readers := map[7 := Missed(0)]),
    START.(readers := map[7 := Filling(0, 0)]),
    Sys(1, None, 0, {1}, map[7 := Filling(0, 0)], []),
    Sys(1, Some(1), 1, {}, map[7 := Filling(0, 0)], []),
    Sys(1, None, 1, {}, map[7 := Filling(0, 0)], []),
    Sys(1, Some(0), 1, {}, map[], [Answer(0, 0)]),
    Sys(1, Some(0), 1, {}, map[], [Answer(0, 0), Answer(1, 0)])]

  lemma FillStep(k: nat)
    requires k < 7
    ensures Enabled(FILL_STATES[k], FILL_ACTIONS[k])
    ensures FILL_STATES[k + 1] == Apply(FILL_STATES[k], FILL_ACTIONS[k])
  {
    if k == 5 {
      assert map[7 := Filling(0, 0)] - {7} == map[];
    }
  }

  /** The set-if-greater alone does not rule a stale landing out: this run serves an ended version from a late fill. */
  lemma StaleFillIsServed()
    ensures IsRun(START, FILL_ACTIONS, FILL_STATES) && !Truthful(FILL_STATES[7])
  {
    hide Apply, Enabled;
    forall k | 0 <= k < 7
      ensures Enabled(FILL_STATES[k], FILL_ACTIONS[k]) && FILL_STATES[k + 1] == Apply(FILL_STATES[k], FILL_ACTIONS[k])
    {
      FillStep(k);
    }
    assert FILL_STATES[7].answers[1] == Answer(1, 0);
  }

  const BUMP_ACTIONS := [Bump, Bump, PublishDeleted(2), PublishOk(1), ReadHit]

  const BUMP_STATES := [
    START,
    Sys(1, None, 0, {1}, map[], []),
    Sys(2, None, 0, {1, 2}, map[], []),
    Sys(2, None, 2, {1}, map[], []),
    Sys(2, Some(1), 2, {}, map[], []),
    Sys(2, Some(1), 2, {}, map[], [Answer(2, 1)])]

  lemma BumpStep(k: nat)
    requires k < 5
    ensures Enabled(BUMP_STATES[k], BUMP_ACTIONS[k])
    ensures BUMP_STATES[k + 1] == Apply(BUMP_STATES[k], BUMP_ACTIONS[k])
  {
  }

  /** Nor is a reader needed: a later bump's failed write drops the key, then the earlier bump's write lands. */
  lemma LatePublishIsServed()
    ensures IsRun(START, BUMP_ACTIONS, BUMP_STATES) && !Truthful(BUMP_STATES[5])
  {
    hide Apply, Enabled;
    forall k | 0 <= k < 5
      ensures Enabled(BUMP_STATES[k], BUMP_ACTIONS[k]) && BUMP_STATES[k + 1] == Apply(BUMP_STATES[k], BUMP_ACTIONS[k])
    {
      BumpStep(k);
    }
    assert BUMP_STATES[5].answers[0] == Answer(2, 1);
  }

  // ---------------------------------------------------------------- a guard that rules it out

  ghost predicate Quiet(s: Sys) {
    s.cache.None? ==>
      && (forall id :: id in s.readers && s.readers[id].Filling? ==> s.readers[id].seen >= s.floor)
      && (forall v :: v in s.unpublished ==> v >= s.floor)
  }

  /** The key goes away only when no fill or publish of a version below the last published one is in flight. */
  ghost predicate QuietDrop(s: Sys, a: Action)
    requires Enabled(s, a)
  {
    a.Drop? || a.PublishDeleted? ==> Quiet(Apply(s, a))
  }

  lemma QuietStep(s: Sys, a: Action)
    requires Bounded(s) && Quiet(s) && Enabled(s, a) && QuietDrop(s, a)
    ensures Quiet(Apply(s, a)) && !StaleLanding(s, a)
  {
  }

  /** If every drop waits for older writes, no outdated one ever lands, so every read is truthful. */
  lemma {:induction false} QuietDropsSuffice(s: Sys, actions: seq<Action>, states: seq<Sys>, n: nat)
    requires Bounded(s) && Fresh(s) && Truthful(s) && Quiet(s) && IsRun(s, actions, states) && n <= |actions|
    requires forall k :: 0 <= k < n ==> QuietDrop(states[k], actions[k])
    ensures Quiet(states[n])
    ensures forall k :: 0 <= k < n ==> !StaleLanding(states[k], actions[k])
    ensures Truthful(states[n])
  {
    if n > 0 {
      QuietDropsSuffice(s, actions, states, n - 1);
      RunBounded(s, actions, states, n - 1);
      QuietStep(states[n - 1], actions[n - 1]);
    }
    ReadsSeePublishes(s, actions, states, n);
  }

  /**
   * The guard lets a token through when the answer equals its version. In a run without stale landings
   * no read that starts after an end was published lets a token of an earlier version through.
   */
  lemma EndedTokenRefused(s: Sys, actions: seq<Action>, states: seq<Sys>, n: nat, k: nat, av: nat)
    requires Bounded(s) && Fresh(s) && Truthful(s) && IsRun(s, actions, states) && n <= |actions|
    requires forall j :: 0 <= j < n ==> !StaleLanding(states[j], actions[j])
    requires k < |states[n].answers| && av < states[n].answers[k].floor
    ensures states[n].answers[k].value != av
  {
    ReadsSeePublishes(s, actions, states, n);
  }

  // ---------------------------------------------------------------- the service

  datatype RedisOutcome = Written | Deleted | Unreachable

  /** The cache after one write-through. */
  function WrittenThrough(cache: map<nat, nat>, u: nat, v: nat, outcome: RedisOutcome): map<nat, nat> {
    match outcome
    case Written => cache[u := SetMax(if u in cache then Some(cache[u]) else None, v)]
    case Deleted => cache - {u}
    case Unreachable => cache
  }

  /** A write keeps the larger version, a delete drops the key, a lost one changes nothing; no other key is touched. */
  lemma WrittenThroughIs(cache: map<nat, nat>, u: nat, v: nat, outcome: RedisOutcome)
    ensures var after := WrittenThrough(cache, u, v, outcome);
            && (outcome == Written ==>
                  u in after && after[u] >= v && (u in cache ==> after[u] >= cache[u])
                  && (after[u] == v || (u in cache && after[u] == cache[u])))
            && (outcome == Deleted ==> u !in after)
            && (outcome == Unreachable ==> after == cache)
            && forall x :: x != u ==> (x in after <==> x in cache) && (x in cache ==> after[x] == cache[x])
  {
  }

  class AuthzVersionService {
    /** users.authz_version, and the shared cache. */
    var versions: map<nat, nat>
    var cache: map<nat, nat>

    ghost predicate Valid()
      reads this
    {
      forall u :: u in cache ==> u in versions && cache[u] <= versions[u]
    }

    constructor (versions: map<nat, nat>)
      ensures Valid() && this.versions == versions && cache == map[]
    {
      this.versions, cache := versions, map[];
    }

    method EvalSetMax(u: nat, v: nat) returns (held: nat)
      requires Valid() && u in versions && v <= versions[u]
      modifies this`cache
      ensures Valid()
      ensures cache == WrittenThrough(old(cache), u, v, Written)
      ensures held == cache[u] && held >= v
    {
      if u !in cache || cache[u] < v {
        cache := cache[u := v];
        return v;
      }
      return cache[u];
    }

    /** The version a request is checked against; the flags say which cache commands fail. */
    method Current(u: nat, getFails: bool, evalFails: bool) returns (v: Option<nat>)
      requires Valid()
      modifies this`cache
      ensures Valid()
      ensures v.None? <==> u !in versions && (getFails || u !in old(cache))
      ensures v.Some? ==> u in versions && v.value <= versions[u]
      ensures v.Some? && (getFails || u !in old(cache)) ==> v.value == versions[u]
      ensures v.Some? && !getFails && u in old(cache) ==> v.value == old(cache)[u]
      ensures cache == if !getFails && !evalFails && u in versions && u !in old(cache)
                       then old(cache)[u := versions[u]] else old(cache)
    {
      if getFails {
        return if u in versions then Some(versions[u]) else None;
      }
      if u in cache {
        return Some(cache[u]);
      }
      if u !in versions {
        return None;
      }
      var fromDb := versions[u];
      if evalFails {
        return Some(fromDb);
      }
      var held := EvalSetMax(u, fromDb);
      return Some(held);
    }

    /** One row of the loop: write, or delete on failure, or give up. */
    method WriteThrough(u: nat, v: nat, outcome: RedisOutcome)
      requires Valid() && u in versions && v <= versions[u]
      modifies this`cache
      ensures Valid()
      ensures cache == WrittenThrough(old(cache), u, v, outcome)
      ensures outcome != Unreachable && u in cache ==> cache[u] >= v
    {
      if outcome == Written {
        var held := EvalSetMax(u, v);
      } else if outcome == Deleted {
        cache := cache - {u};
      }
    }

    method Publish(u: nat, v: nat, outcome: RedisOutcome)
      requires Valid() && u in versions && v <= versions[u]
      modifies this`cache
      ensures Valid()
      ensures cache == WrittenThrough(old(cache), u, v, outcome)
      ensures outcome != Unreachable && u in cache ==> cache[u] >= v
    {
      WriteThrough(u, v, outcome);
    }

    /** One UPDATE for all listed users there are, then the write-through loop over the returned rows. */
    method BumpUsers(ids: seq<nat>, outcome: nat -> RedisOutcome)
      requires Valid()
      modifies this
      ensures Valid()
      ensures versions.Keys == old(versions).Keys
      ensures forall u :: u in versions ==> versions[u] == old(versions)[u] + (if u in ids then 1 else 0)
      ensures forall u :: u in ids && u in versions && outcome(u) != Unreachable && u in cache ==>
                cache[u] == versions[u]
      ensures forall u :: u !in ids ==> (u in cache <==> u in old(cache))
      ensures forall u :: u !in ids && u in cache ==> cache[u] == old(cache)[u]
    {
      if |ids| == 0 {
        return;
      }
      versions := map u | u in versions :: if u in ids then versions[u] + 1 else versions[u];
      var rows := Returned(ids, versions);
      WriteThroughAll(rows, outcome);
    }

    method WriteThroughAll(rows: seq<nat>, outcome: nat -> RedisOutcome)
      requires Valid() && forall k :: 0 <= k < |rows| ==> rows[k] in versions
      modifies this`cache
      ensures Valid()
      ensures forall u :: u in rows && outcome(u) != Unreachable && u in cache ==> cache[u] == versions[u]
      ensures forall u :: u !in rows ==> (u in cache <==> u in old(cache))
      ensures forall u :: u !in rows && u in cache ==> cache[u] == old(cache)[u]
    {
      for i := 0 to |rows|
        invariant Valid()
        invariant forall k :: 0 <= k < i && outcome(rows[k]) != Unreachable && rows[k] in cache ==>
                    cache[rows[k]] == versions[rows[k]]
        invariant forall u :: u !in rows ==> (u in cache <==> u in old(cache))
        invariant forall u :: u !in rows && u in cache ==> cache[u] == old(cache)[u]
      {
        WriteThrough(rows[i], versions[rows[i]], outcome(rows[i]));
      }
    }
  }

  /** The rows an UPDATE over a list of ids returns: each listed user there is, once. */
  function Returned(ids: seq<nat>, versions: map<nat, nat>): (rows: seq<nat>)
    ensures forall u :: u in rows <==> u in ids && u in versions
    ensures forall i, j :: 0 <= i < j < |rows| ==> rows[i] != rows[j]
  {
    if ids == [] then []
    else
      var n := |ids| - 1;
      var rows := Returned(ids[..n], versions);
      assert ids == ids[..n] + [ids[n]];
      if ids[n] in versions && ids[n] !in rows then rows + [ids[n]] else rows
  }
}
