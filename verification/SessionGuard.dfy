/**
 * Tokens and the version cache together: the database version that rotations read and session ends raise is
 * the one the cache protocol publishes and the guard compares with, every step interleaving with every other.
 */
module SessionGuard {
  import opened Common
  import RefreshTokens
  import AuthzVersion

  type UserId = RefreshTokens.UserId

  /** The token tables, and the cache protocol of one user's key. */
  datatype State = State(db: RefreshTokens.Db, sys: AuthzVersion.Sys)

  /** A transaction on the token tables, or a step of the cache; bumps come from transactions alone. */
  datatype Step = Tokens(a: RefreshTokens.Action) | Cache(c: AuthzVersion.Action)

  predicate Bumps(db: RefreshTokens.Db, u: UserId, a: RefreshTokens.Action) {
    u in db.users && (a.DoEndSessions? || a.DoBump?) && a.user == u
  }

  predicate Enabled(s: State, step: Step) {
    step.Cache? ==> !step.c.Bump? && AuthzVersion.Enabled(s.sys, step.c)
  }

  function Apply(s: State, u: UserId, step: Step, grace: int): State
    requires Enabled(s, step)
  {
    match step
    case Tokens(a) =>
      State(RefreshTokens.Apply(s.db, a, grace),
            if Bumps(s.db, u, a) then AuthzVersion.Apply(s.sys, AuthzVersion.Bump) else s.sys)
    case Cache(c) => State(s.db, AuthzVersion.Apply(s.sys, c))
  }

  ghost predicate IsRun(s: State, u: UserId, steps: seq<Step>, states: seq<State>, grace: int) {
    && |states| == |steps| + 1
    && states[0] == s
    && forall k :: 0 <= k < |steps| ==>
         Enabled(states[k], steps[k]) && states[k + 1] == Apply(states[k], u, steps[k], grace)
  }

  ghost predicate NoStaleLanding(s: State, step: Step)
    requires Enabled(s, step)
  {
    step.Cache? ==> !AuthzVersion.StaleLanding(s.sys, step.c)
  }

  // ---------------------------------------------------------------- what every step keeps

  /** One version, in both: what the guard may answer is bounded by it and never below what was published. */
  ghost predicate Inv(s: State, u: UserId) {
    && RefreshTokens.Inv(s.db)
    && u in s.db.users && s.db.users[u].version == s.sys.db
    && AuthzVersion.Bounded(s.sys) && AuthzVersion.Fresh(s.sys) && AuthzVersion.Truthful(s.sys)
  }

  /** Users without tokens and an empty cache: the invariant holds to begin with. */
  lemma StartHolds(users: map<UserId, RefreshTokens.User>, u: UserId)
    requires u in users
    ensures Inv(State(RefreshTokens.Db(users, [], 0), AuthzVersion.Sys(users[u].version, None, 0, {}, map[], [])), u)
  {
  }

  lemma TokensStep(db: RefreshTokens.Db, u: UserId, a: RefreshTokens.Action, grace: int)
    requires u in db.users
    ensures var after := RefreshTokens.Apply(db, a, grace);
            u in after.users
            && after.users[u].version == db.users[u].version + if Bumps(db, u, a) then 1 else 0
  {
  }

  lemma CacheStep(sys: AuthzVersion.Sys, c: AuthzVersion.Action)
    requires AuthzVersion.Enabled(sys, c) && !AuthzVersion.StaleLanding(sys, c)
    requires AuthzVersion.Bounded(sys) && AuthzVersion.Fresh(sys) && AuthzVersion.Truthful(sys)
    ensures var after := AuthzVersion.Apply(sys, c);
            && AuthzVersion.Bounded(after) && AuthzVersion.Fresh(after) && AuthzVersion.Truthful(after)
            && after.db == sys.db + (if c.Bump? then 1 else 0) && after.floor >= sys.floor
  {
    AuthzVersion.StepBounded(sys, c);
    AuthzVersion.FreshStepIff(sys, c);
    AuthzVersion.AnswerTruthful(sys, c);
  }

  lemma StepKeeps(s: State, u: UserId, step: Step, grace: int)
    requires Inv(s, u) && Enabled(s, step) && NoStaleLanding(s, step)
    ensures var after := Apply(s, u, step, grace);
            Inv(after, u) && after.sys.db >= s.sys.db && after.sys.floor >= s.sys.floor
  {
    hide RefreshTokens.Apply, RefreshTokens.Inv, AuthzVersion.Bounded, AuthzVersion.Fresh, AuthzVersion.Truthful,
      AuthzVersion.Apply;
    match step
    case Tokens(a) =>
      RefreshTokens.ApplyKeeps(s.db, a, grace);
      TokensStep(s.db, u, a, grace);
      BumpLandsNothing(s.sys);
      CacheStep(s.sys, AuthzVersion.Bump);
    case Cache(c) =>
      CacheStep(s.sys, c);
  }

  lemma BumpLandsNothing(sys: AuthzVersion.Sys)
    ensures AuthzVersion.Enabled(sys, AuthzVersion.Bump) && !AuthzVersion.StaleLanding(sys, AuthzVersion.Bump)
  {
  }

  /** Between two points of a run the invariant is kept, and neither the version nor what is published falls. */
  lemma {:induction false} RunKeeps(s: State, u: UserId, steps: seq<Step>, states: seq<State>, grace: int, i: nat, j: nat)
    requires Inv(s, u) && IsRun(s, u, steps, states, grace) && i <= j <= |steps|
    requires forall k :: 0 <= k < |steps| ==> NoStaleLanding(states[k], steps[k])
    ensures Inv(states[i], u) && Inv(states[j], u)
    ensures states[i].sys.db <= states[j].sys.db && states[i].sys.floor <= states[j].sys.floor
    decreases j
  {
    hide Inv, Apply, NoStaleLanding;
    if i < j {
      RunKeeps(s, u, steps, states, grace, i, j - 1);
      StepKeeps(states[j - 1], u, steps[j - 1], grace);
    } else if j > 0 {
      RunKeeps(s, u, steps, states, grace, j - 1, j - 1);
      StepKeeps(states[j - 1], u, steps[j - 1], grace);
    }
  }

  // ---------------------------------------------------------------- an ended session is refused

  /** Step p completes the publish of version v: the write went through, or the key was deleted instead. */
  predicate Publishes(step: Step, v: nat) {
    step.Cache? && (step.c == AuthzVersion.PublishOk(v) || step.c == AuthzVersion.PublishDeleted(v))
  }

  lemma PublishRaises(s: State, u: UserId, step: Step, v: nat, grace: int)
    requires Enabled(s, step) && Publishes(step, v)
    ensures Apply(s, u, step, grace).sys.floor >= v
  {
  }

  /** From step q to step t a read is under way: a cache hit at once, any other as a reader that goes when it answers. */
  ghost predicate Read(steps: seq<Step>, states: seq<State>, q: nat, t: nat)
    requires q <= t < |steps| && |states| == |steps| + 1
  {
    steps[q].Cache? &&
    match steps[q].c
    case ReadHit => t == q
    case ReadMiss(id) => UnderWay(states, id, q, t)
    case ReadUnavailable(id) => UnderWay(states, id, q, t)
    case _ => false
  }

  ghost predicate UnderWay(states: seq<State>, id: nat, q: nat, t: nat)
    requires q <= t && t + 1 < |states|
  {
    && (forall x :: q < x <= t ==> id in states[x].sys.readers)
    && id !in states[t + 1].sys.readers
  }

  /** What a step answers, if it answers a read: the answers are appended one by one. */
  ghost predicate AnswersSince(before: State, after: State, floor: nat) {
    && |after.sys.answers| == |before.sys.answers| + 1
    && after.sys.answers[|before.sys.answers|].floor >= floor
  }

  lemma {:induction false} ReaderKeepsFloor(s: State, u: UserId, steps: seq<Step>, states: seq<State>, grace: int,
                                            id: nat, q: nat, x: nat)
    requires IsRun(s, u, steps, states, grace) && q < x <= |steps|
    requires forall y :: q < y <= x ==> id in states[y].sys.readers
    ensures states[x].sys.readers[id].floor == states[q + 1].sys.readers[id].floor
    decreases x
  {
    if q + 1 < x {
      ReaderKeepsFloor(s, u, steps, states, grace, id, q, x - 1);
    }
  }

  /** A read that starts once v is published is answered for a floor of at least v. */
  lemma ReadAnswersSince(s: State, u: UserId, steps: seq<Step>, states: seq<State>, grace: int, q: nat, t: nat, v: nat)
    requires IsRun(s, u, steps, states, grace) && q <= t < |steps| && Read(steps, states, q, t)
    requires states[q].sys.floor >= v
    ensures AnswersSince(states[t], states[t + 1], v)
  {
    assert states[q + 1] == Apply(states[q], u, steps[q], grace);
    match steps[q].c
    case ReadHit =>
    case ReadMiss(id) =>
      ReaderKeepsFloor(s, u, steps, states, grace, id, q, t);
      ReaderAnswers(states[t], u, steps[t], grace, id);
    case ReadUnavailable(id) =>
      ReaderKeepsFloor(s, u, steps, states, grace, id, q, t);
      ReaderAnswers(states[t], u, steps[t], grace, id);
  }

  lemma ReaderAnswers(s: State, u: UserId, step: Step, grace: int, id: nat)
    requires Enabled(s, step) && id in s.sys.readers && id !in Apply(s, u, step, grace).sys.readers
    ensures AnswersSince(s, Apply(s, u, step, grace), s.sys.readers[id].floor)
  {
  }

  /**
   * A rotation at step r, a session end at step e after it, the publish of the end's version at step p after
   * that, and a read from step q to step t after that. In a run without stale landings the guard that acts on
   * the read refuses the rotation's access token, whenever and on whatever state that token was signed.
   */
  lemma EndedSessionRefused(s: State, u: UserId, steps: seq<Step>, states: seq<State>, grace: int,
                            h: RefreshTokens.Hash, now: int, lifetime: int, r: nat,
                            except: Option<RefreshTokens.Hash>, endNow: int, e: nat, p: nat, q: nat, t: nat,
                            signing: RefreshTokens.Db)
    requires Inv(s, u) && IsRun(s, u, steps, states, grace)
    requires forall i :: 0 <= i < |steps| ==> NoStaleLanding(states[i], steps[i])
    requires r < e < p < q <= t < |steps|
    requires steps[r] == Tokens(RefreshTokens.DoRotate(h, now, lifetime))
    requires RefreshTokens.RotateResult(states[r].db, h, now, lifetime, grace).Some?
    requires RefreshTokens.RotateResult(states[r].db, h, now, lifetime, grace).value.user == u
    requires steps[e] == Tokens(RefreshTokens.DoEndSessions(u, except, endNow))
    requires Publishes(steps[p], states[e + 1].sys.db)
    requires Read(steps, states, q, t)
    ensures var av := RefreshTokens.RotateResult(states[r].db, h, now, lifetime, grace).value.authzVersion;
            var answers, k := states[t + 1].sys.answers, |states[t].sys.answers|;
            && |answers| == k + 1
            && answers[k].value != RefreshTokens.SignAccessToken(signing, u, Some(av)).value.av
  {
    hide RefreshTokens.RotateResult, Apply, NoStaleLanding, RefreshTokens.Inv, Read;
    var v := states[e + 1].sys.db;
    RunKeeps(s, u, steps, states, grace, r, e);
    RotationReads(states[r].db, h, now, lifetime, grace);
    EndBumps(states[e], u, except, endNow, grace);
    PublishRaises(states[p], u, steps[p], v, grace);
    RunKeeps(s, u, steps, states, grace, p + 1, q);
    ReadAnswersSince(s, u, steps, states, grace, q, t, v);
    RunKeeps(s, u, steps, states, grace, q, t + 1);
  }

  lemma RotationReads(db: RefreshTokens.Db, h: RefreshTokens.Hash, now: int, lifetime: int, grace: int)
    requires RefreshTokens.Inv(db) && RefreshTokens.RotateResult(db, h, now, lifetime, grace).Some?
    ensures var r := RefreshTokens.RotateResult(db, h, now, lifetime, grace).value;
            r.user in db.users && r.authzVersion == db.users[r.user].version
  {
    var i := RefreshTokens.FindByHash(db.rows, h).value;
    RefreshTokens.SuccessorIsLive(db, i, now, lifetime, grace);
  }

  lemma EndBumps(s: State, u: UserId, except: Option<RefreshTokens.Hash>, endNow: int, grace: int)
    requires Inv(s, u)
    ensures Apply(s, u, Tokens(RefreshTokens.DoEndSessions(u, except, endNow)), grace).sys.db == s.sys.db + 1
  {
  }
}
