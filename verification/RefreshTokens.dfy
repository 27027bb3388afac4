/**
 * Refresh-token rows and the session version of their users. Every function below is one transaction
 * under the user's lock; a run is any interleaving of them, for any users, with any clock readings.
 */
module RefreshTokens {
  import opened Common

  type UserId = nat
  type Hash = nat
  type Family = nat

  /** `revokedAt` may be missing on a revoked row: rows revoked before the column existed have none. */
  datatype Row = Row(hash: Hash, user: UserId, family: Family, revoked: bool, revokedAt: Option<int>, expiresAt: int)

  datatype User = User(version: nat, active: bool)

  /** Rows stand in creation order; `next` is the next value the random generator will yield. */
  datatype Db = Db(users: map<UserId, User>, rows: seq<Row>, next: nat)

  datatype Rotated = Rotated(user: UserId, newRaw: Hash, expiresAt: int, authzVersion: nat)

  // ---------------------------------------------------------------- row queries and updates

  function FindByHash(rows: seq<Row>, h: Hash): (r: Option<nat>)
    ensures r.Some? ==> r.value < |rows| && rows[r.value].hash == h
    ensures r.None? ==> forall i :: 0 <= i < |rows| ==> rows[i].hash != h
  {
    if rows == [] then None
    else
      var n := |rows| - 1;
      var front := FindByHash(rows[..n], h);
      if front.Some? then front else if rows[n].hash == h then Some(n) else None
  }

  predicate IsLive(row: Row, f: Family, now: int) {
    row.family == f && !row.revoked && row.expiresAt > now
  }

  /** The most recently created live row of a family. */
  function FindLive(rows: seq<Row>, f: Family, now: int): (r: Option<nat>)
    ensures r.Some? ==> r.value < |rows| && IsLive(rows[r.value], f, now)
    ensures r.None? ==> forall i :: 0 <= i < |rows| ==> !IsLive(rows[i], f, now)
  {
    if rows == [] then None
    else
      var n := |rows| - 1;
      if IsLive(rows[n], f, now) then Some(n) else FindLive(rows[..n], f, now)
  }

  datatype Selection = OfFamily(family: Family) | OfUser(user: UserId) | OfUserExcept(user: UserId, family: Family)

  predicate Selects(s: Selection, row: Row) {
    match s
    case OfFamily(f) => row.family == f
    case OfUser(u) => row.user == u
    case OfUserExcept(u, f) => row.user == u && row.family != f
  }

  function Revoke(row: Row, now: int): Row {
    row.(revoked := true, revokedAt := Some(now))
  }

  /** `UPDATE ... WHERE selected AND NOT is_revoked`. */
  function RevokeSelected(rows: seq<Row>, s: Selection, now: int): (r: seq<Row>)
    ensures |r| == |rows|
    ensures forall i :: 0 <= i < |rows| ==>
              r[i] == if Selects(s, rows[i]) && !rows[i].revoked then Revoke(rows[i], now) else rows[i]
  {
    seq(|rows|, i requires 0 <= i < |rows| =>
      if Selects(s, rows[i]) && !rows[i].revoked then Revoke(rows[i], now) else rows[i])
  }

  // ---------------------------------------------------------------- the transactions

  /** A new login: a fresh family with one row. */
  function Create(db: Db, u: UserId, now: int, lifetime: int): Db {
    if u !in db.users then db
    else
      db.(rows := db.rows + [Row(db.next, u, db.next + 1, false, None, now + lifetime)], next := db.next + 2)
  }

  /** Consumes row i and appends its successor. */
  function RotateRow(db: Db, i: nat, now: int, lifetime: int): Db
    requires i < |db.rows|
  {
    var row := db.rows[i];
    db.(rows := db.rows[i := Revoke(row, now)] + [Row(db.next, row.user, row.family, false, None, now + lifetime)],
        next := db.next + 1)
  }

  predicate WithinGrace(row: Row, now: int, grace: int) {
    row.revokedAt.Some? && now - row.revokedAt.value <= grace
  }

  /** Which row a presentation consumes, if any. */
  function RotationTarget(db: Db, h: Hash, now: int, grace: int): (r: Option<nat>)
    ensures r.Some? ==> r.value < |db.rows| && !db.rows[r.value].revoked
  {
    var found := FindByHash(db.rows, h);
    if found.None? then None else
    var row := db.rows[found.value];
    if row.revoked then
      if WithinGrace(row, now, grace) then FindLive(db.rows, row.family, now) else None
    else if row.expiresAt < now then None
    else found
  }

  function RotateLocked(db: Db, h: Hash, now: int, lifetime: int, grace: int): Db {
    var target, found := RotationTarget(db, h, now, grace), FindByHash(db.rows, h);
    if target.Some? then RotateRow(db, target.value, now, lifetime)
    else if found.None? then db
    else if db.rows[found.value].revoked
    then db.(rows := RevokeSelected(db.rows, OfFamily(db.rows[found.value].family), now))
    else db.(rows := db.rows[found.value := Revoke(db.rows[found.value], now)])
  }

  /** The owner's row, if the presented token has an active one. */
  function ActiveOwner(db: Db, h: Hash): Option<UserId> {
    var found := FindByHash(db.rows, h);
    if found.None? then None else
    var u := db.rows[found.value].user;
    if u in db.users && db.users[u].active then Some(u) else None
  }

  function Rotate(db: Db, h: Hash, now: int, lifetime: int, grace: int): Db {
    if ActiveOwner(db, h).None? then db else RotateLocked(db, h, now, lifetime, grace)
  }

  /** What the caller of a rotation gets back; the version is the one read under the lock. */
  function RotateResult(db: Db, h: Hash, now: int, lifetime: int, grace: int): (r: Option<Rotated>)
    ensures r.Some? ==> ActiveOwner(db, h).Some? && r.value.newRaw == db.next
  {
    var owner, target := ActiveOwner(db, h), RotationTarget(db, h, now, grace);
    if owner.None? || target.None? then None
    else Some(Rotated(db.rows[target.value].user, db.next, now + lifetime, db.users[owner.value].version))
  }

  function RevokeFamily(db: Db, h: Hash, now: int): Db {
    var found := FindByHash(db.rows, h);
    if found.None? then db
    else db.(rows := RevokeSelected(db.rows, OfFamily(db.rows[found.value].family), now))
  }

  function RevokeAll(db: Db, u: UserId, now: int): Db {
    db.(rows := RevokeSelected(db.rows, OfUser(u), now))
  }

  /** Which rows a session end revokes: all of the user's, less the family of a spared token that resolves. */
  function EndSelection(db: Db, u: UserId, except: Option<Hash>): Selection {
    var found := if except.Some? then FindByHash(db.rows, except.value) else None;
    if found.Some? then OfUserExcept(u, db.rows[found.value].family) else OfUser(u)
  }

  function BumpVersion(db: Db, u: UserId): Db {
    if u !in db.users then db
    else db.(users := db.users[u := db.users[u].(version := db.users[u].version + 1)])
  }

  function EndSessions(db: Db, u: UserId, except: Option<Hash>, now: int): Db {
    if u !in db.users then db
    else BumpVersion(db, u).(rows := RevokeSelected(db.rows, EndSelection(db, u, except), now))
  }

  function SetActive(db: Db, u: UserId, active: bool): Db {
    if u !in db.users then db else db.(users := db.users[u := db.users[u].(active := active)])
  }

  // ---------------------------------------------------------------- runs

  datatype Action =
    | DoCreate(user: UserId, now: int, lifetime: int)
    | DoRotate(hash: Hash, now: int, lifetime: int)
    | DoRevokeFamily(hash: Hash, now: int)
    | DoRevokeAll(user: UserId, now: int)
    | DoEndSessions(user: UserId, except: Option<Hash>, now: int)
    | DoBump(user: UserId)
    | DoSetActive(user: UserId, active: bool)

  function Apply(db: Db, a: Action, grace: int): Db {
    match a
    case DoCreate(u, now, lifetime) => Create(db, u, now, lifetime)
    case DoRotate(h, now, lifetime) => Rotate(db, h, now, lifetime, grace)
    case DoRevokeFamily(h, now) => RevokeFamily(db, h, now)
    case DoRevokeAll(u, now) => RevokeAll(db, u, now)
    case DoEndSessions(u, except, now) => EndSessions(db, u, except, now)
    case DoBump(u) => BumpVersion(db, u)
    case DoSetActive(u, active) => SetActive(db, u, active)
  }

  function Run(db: Db, actions: seq<Action>, grace: int): Db {
    if actions == [] then db
    else Apply(Run(db, actions[..|actions| - 1], grace), actions[|actions| - 1], grace)
  }

  // ---------------------------------------------------------------- the invariant

  /** Some row of the family is not revoked. */
  ghost predicate Alive(rows: seq<Row>, f: Family) {
    exists i :: 0 <= i < |rows| && rows[i].family == f && !rows[i].revoked
  }

  ghost predicate SingleLive(rows: seq<Row>) {
    forall i, j :: 0 <= i < j < |rows| && !rows[i].revoked && !rows[j].revoked ==> rows[i].family != rows[j].family
  }

  ghost predicate OneOwner(rows: seq<Row>) {
    forall i, j :: 0 <= i < j < |rows| && rows[i].family == rows[j].family ==> rows[i].user == rows[j].user
  }

  ghost predicate DistinctHashes(rows: seq<Row>) {
    forall i, j :: 0 <= i < j < |rows| ==> rows[i].hash != rows[j].hash
  }

  ghost predicate Known(db: Db) {
    forall i :: 0 <= i < |db.rows| ==>
      db.rows[i].hash < db.next && db.rows[i].family < db.next && db.rows[i].user in db.users
  }

  ghost predicate Inv(db: Db) {
    SingleLive(db.rows) && OneOwner(db.rows) && DistinctHashes(db.rows) && Known(db)
  }

  /** Revoking rows, and nothing else, keeps the invariant. */
  lemma RevokingKeeps(db: Db, rows: seq<Row>)
    requires Inv(db) && |rows| == |db.rows|
    requires forall i :: 0 <= i < |rows| ==> rows[i] == db.rows[i] || exists t :: rows[i] == Revoke(db.rows[i], t)
    ensures Inv(db.(rows := rows))
  {
    forall i | 0 <= i < |rows|
      ensures rows[i].hash == db.rows[i].hash && rows[i].family == db.rows[i].family
      ensures rows[i].user == db.rows[i].user && (db.rows[i].revoked ==> rows[i].revoked)
    {
    }
  }

  lemma RotateRowKeeps(db: Db, i: nat, now: int, lifetime: int)
    requires Inv(db) && i < |db.rows| && !db.rows[i].revoked
    ensures Inv(RotateRow(db, i, now, lifetime))
  {
    RevokingKeeps(db, db.rows[i := Revoke(db.rows[i], now)]);
  }

  lemma ApplyKeeps(db: Db, a: Action, grace: int)
    requires Inv(db)
    ensures Inv(Apply(db, a, grace))
  {
    var after := Apply(db, a, grace);
    match a
    case DoRotate(h, now, lifetime) =>
      RotateKeeps(db, h, now, lifetime, grace);
    case DoRevokeFamily(_, _) =>
      RevokingKeeps(db, after.rows);
    case DoRevokeAll(_, _) =>
      RevokingKeeps(db, after.rows);
    case DoEndSessions(u, _, _) =>
      if u in db.users {
        RevokingKeeps(BumpVersion(db, u), after.rows);
      }
    case _ =>
  }

  lemma RotateKeeps(db: Db, h: Hash, now: int, lifetime: int, grace: int)
    requires Inv(db)
    ensures Inv(Rotate(db, h, now, lifetime, grace))
  {
    var target, found := RotationTarget(db, h, now, grace), FindByHash(db.rows, h);
    if ActiveOwner(db, h).Some? {
      if target.Some? {
        RotateRowKeeps(db, target.value, now, lifetime);
      } else {
        RevokingKeeps(db, Rotate(db, h, now, lifetime, grace).rows);
      }
    }
  }

  /** In every reachable state each family has at most one unrevoked token. */
  lemma {:induction false} RunKeeps(db: Db, actions: seq<Action>, grace: int)
    requires Inv(db)
    ensures Inv(Run(db, actions, grace))
  {
    if actions != [] {
      RunKeeps(db, actions[..|actions| - 1], grace);
      ApplyKeeps(Run(db, actions[..|actions| - 1], grace), actions[|actions| - 1], grace);
    }
  }

  /** So in every state reachable from users without tokens. */
  lemma ReachableStates(users: map<UserId, User>, actions: seq<Action>, grace: int)
    ensures Inv(Run(Db(users, [], 0), actions, grace))
  {
    RunKeeps(Db(users, [], 0), actions, grace);
  }

  // ---------------------------------------------------------------- dead families stay dead

  ghost predicate Exists(db: Db, f: Family) {
    exists i :: 0 <= i < |db.rows| && db.rows[i].family == f
  }

  /** No step changes a row's family or brings a row back, and a new row is of a new family or of one still alive. */
  lemma RowsAfter(db: Db, a: Action, grace: int)
    ensures var n, rows := |db.rows|, Apply(db, a, grace).rows;
            && n <= |rows| <= n + 1
            && (forall i :: 0 <= i < n ==> rows[i].family == db.rows[i].family)
            && (forall i :: 0 <= i < n && db.rows[i].revoked ==> rows[i].revoked)
            && (|rows| == n + 1 ==> rows[n].family == db.next + 1 || Alive(db.rows, rows[n].family))
  {
  }

  lemma DeadStaysDeadOnce(db: Db, a: Action, f: Family, grace: int)
    requires Inv(db) && Exists(db, f) && !Alive(db.rows, f)
    ensures Exists(Apply(db, a, grace), f) && !Alive(Apply(db, a, grace).rows, f)
  {
    hide Apply;
    var after := Apply(db, a, grace);
    RowsAfter(db, a, grace);
    var k :| 0 <= k < |db.rows| && db.rows[k].family == f;
    assert after.rows[k].family == f;
  }

  /** A family with no unrevoked token never regains one. */
  lemma {:induction false} DeadStaysDead(db: Db, actions: seq<Action>, f: Family, grace: int)
    requires Inv(db) && Exists(db, f) && !Alive(db.rows, f)
    ensures Exists(Run(db, actions, grace), f) && !Alive(Run(db, actions, grace).rows, f)
  {
    if actions != [] {
      var front := actions[..|actions| - 1];
      DeadStaysDead(db, front, f, grace);
      RunKeeps(db, front, grace);
      DeadStaysDeadOnce(Run(db, front, grace), actions[|actions| - 1], f, grace);
    }
  }

  lemma FoundIs(rows: seq<Row>, i: nat)
    requires DistinctHashes(rows) && i < |rows|
    ensures FindByHash(rows, rows[i].hash) == Some(i)
  {
    var found := FindByHash(rows, rows[i].hash);
    assert found.Some?;
  }

  /** No token of a dead family can be exchanged. */
  lemma DeadNeverRotates(db: Db, i: nat, now: int, lifetime: int, grace: int)
    requires Inv(db) && i < |db.rows| && !Alive(db.rows, db.rows[i].family)
    ensures RotateResult(db, db.rows[i].hash, now, lifetime, grace).None?
  {
    FoundIs(db.rows, i);
  }

  /** A token that no row stores, or whose owner is not active, is refused, and nothing changes. */
  lemma StrangersChangeNothing(db: Db, h: Hash, now: int, lifetime: int, grace: int)
    requires Inv(db)
    requires forall k :: 0 <= k < |db.rows| && db.rows[k].hash == h ==> !db.users[db.rows[k].user].active
    ensures RotateResult(db, h, now, lifetime, grace).None? && Rotate(db, h, now, lifetime, grace) == db
  {
  }

  /** Exactly when a presentation is answered with a successor. */
  lemma RotateSucceedsIff(db: Db, i: nat, now: int, lifetime: int, grace: int)
    requires Inv(db) && i < |db.rows|
    ensures var row := db.rows[i];
            RotateResult(db, row.hash, now, lifetime, grace).Some? <==>
              && db.users[row.user].active
              && (if row.revoked
                  then row.revokedAt.Some? && now - row.revokedAt.value <= grace
                       && exists k :: 0 <= k < |db.rows| && db.rows[k].family == row.family && !db.rows[k].revoked
                                      && db.rows[k].expiresAt > now
                  else now <= row.expiresAt)
  {
    FoundIs(db.rows, i);
  }

  /** A successor belongs to the presented token's user and family and is its one live token. */
  lemma SuccessorIsLive(db: Db, i: nat, now: int, lifetime: int, grace: int)
    requires Inv(db) && i < |db.rows|
    requires RotateResult(db, db.rows[i].hash, now, lifetime, grace).Some?
    ensures var r := RotateResult(db, db.rows[i].hash, now, lifetime, grace).value;
            var after, n := Rotate(db, db.rows[i].hash, now, lifetime, grace), |db.rows|;
            && r.user == db.rows[i].user && r.authzVersion == db.users[r.user].version && r.expiresAt == now + lifetime
            && |after.rows| == n + 1
            && after.rows[n] == Row(r.newRaw, db.rows[i].user, db.rows[i].family, false, None, r.expiresAt)
            && FindByHash(db.rows, r.newRaw).None?
            && forall k :: 0 <= k < n && after.rows[k].family == db.rows[i].family ==> after.rows[k].revoked
  {
    FoundIs(db.rows, i);
    var target := RotationTarget(db, db.rows[i].hash, now, grace).value;
    assert db.rows[target].family == db.rows[i].family;
    assert db.rows[target].user == db.rows[i].user;
  }

  /** An answered presentation consumes the family's one unrevoked token, at the time of the call, and nothing else. */
  lemma RotationConsumes(db: Db, i: nat, now: int, lifetime: int, grace: int)
    requires Inv(db) && i < |db.rows|
    requires RotateResult(db, db.rows[i].hash, now, lifetime, grace).Some?
    ensures var after, n := Rotate(db, db.rows[i].hash, now, lifetime, grace), |db.rows|;
            && after.users == db.users && |after.rows| == n + 1
            && forall k :: 0 <= k < n ==>
                 after.rows[k] == if db.rows[k].family == db.rows[i].family && !db.rows[k].revoked
                                  then db.rows[k].(revoked := true, revokedAt := Some(now)) else db.rows[k]
  {
    hide FindByHash, FindLive;
    FoundIs(db.rows, i);
    var target := RotationTarget(db, db.rows[i].hash, now, grace).value;
    assert db.rows[target].family == db.rows[i].family;
  }

  /** The rows of a family are all revoked, at `now` where they were not before, and no other row has changed. */
  ghost predicate FamilyEnded(before: seq<Row>, after: seq<Row>, f: Family, now: int) {
    && |after| == |before|
    && forall k :: 0 <= k < |before| ==>
         after[k] == if before[k].family == f && !before[k].revoked
                     then before[k].(revoked := true, revokedAt := Some(now)) else before[k]
  }

  lemma EndedFamilyIsDead(before: seq<Row>, after: seq<Row>, f: Family, now: int)
    requires FamilyEnded(before, after, f, now)
    ensures !Alive(after, f)
  {
  }

  /** Replaying a consumed token outside the window, or of a broken chain, is refused and ends its family. */
  lemma ReuseEndsFamily(db: Db, i: nat, now: int, lifetime: int, grace: int)
    requires Inv(db) && i < |db.rows| && db.rows[i].revoked && db.users[db.rows[i].user].active
    requires db.rows[i].revokedAt.None? || now > db.rows[i].revokedAt.value + grace
             || forall k :: 0 <= k < |db.rows| && db.rows[k].family == db.rows[i].family && !db.rows[k].revoked ==>
                  db.rows[k].expiresAt <= now
    ensures var after := Rotate(db, db.rows[i].hash, now, lifetime, grace);
            && RotateResult(db, db.rows[i].hash, now, lifetime, grace).None?
            && after.users == db.users && FamilyEnded(db.rows, after.rows, db.rows[i].family, now)
            && !Alive(after.rows, db.rows[i].family)
  {
    hide FindByHash, FindLive;
    FoundIs(db.rows, i);
    RotateSucceedsIff(db, i, now, lifetime, grace);
    EndedFamilyIsDead(db.rows, Rotate(db, db.rows[i].hash, now, lifetime, grace).rows, db.rows[i].family, now);
  }

  /** An expired token is refused and revoked by itself. */
  lemma ExpiredIsRevoked(db: Db, i: nat, now: int, lifetime: int, grace: int)
    requires Inv(db) && i < |db.rows| && !db.rows[i].revoked && db.users[db.rows[i].user].active
    requires db.rows[i].expiresAt < now
    ensures RotateResult(db, db.rows[i].hash, now, lifetime, grace).None?
    ensures Rotate(db, db.rows[i].hash, now, lifetime, grace)
         == db.(rows := db.rows[i := db.rows[i].(revoked := true, revokedAt := Some(now))])
  {
    FoundIs(db.rows, i);
  }

  /** A logout ends the family of the token it presents, and nothing else; an unknown token ends nothing. */
  lemma LogoutEndsFamily(db: Db, h: Hash, now: int)
    requires Inv(db)
    ensures RevokeFamily(db, h, now).users == db.users
    ensures forall i :: 0 <= i < |db.rows| && db.rows[i].hash == h ==>
              && FamilyEnded(db.rows, RevokeFamily(db, h, now).rows, db.rows[i].family, now)
              && !Alive(RevokeFamily(db, h, now).rows, db.rows[i].family)
    ensures (forall i :: 0 <= i < |db.rows| ==> db.rows[i].hash != h) ==> RevokeFamily(db, h, now) == db
  {
    forall i | 0 <= i < |db.rows| && db.rows[i].hash == h
      ensures FamilyEnded(db.rows, RevokeFamily(db, h, now).rows, db.rows[i].family, now)
      ensures !Alive(RevokeFamily(db, h, now).rows, db.rows[i].family)
    {
      FoundIs(db.rows, i);
      EndedFamilyIsDead(db.rows, RevokeFamily(db, h, now).rows, db.rows[i].family, now);
    }
  }

  /** Revoking all of a user's tokens leaves the user none, the version as it was, and everybody else theirs. */
  lemma RevokeAllLeavesNone(db: Db, u: UserId, now: int)
    ensures var after := RevokeAll(db, u, now);
            && after.users == db.users && |after.rows| == |db.rows|
            && forall k :: 0 <= k < |db.rows| ==>
                 after.rows[k] == if db.rows[k].user == u && !db.rows[k].revoked
                                  then db.rows[k].(revoked := true, revokedAt := Some(now)) else db.rows[k]
  {
  }

  /**
   * A grace of 0 is meant to restore strict single use. It does so once the clock has moved past the
   * revocation: until then, on an equal reading or one behind it, a replayed token still yields a session.
   */
  lemma ZeroGraceIsStrictIff(db: Db, i: nat, now: int, lifetime: int)
    requires Inv(db) && i < |db.rows| && db.users[db.rows[i].user].active && db.rows[i].revoked
    requires exists k :: 0 <= k < |db.rows| && db.rows[k].family == db.rows[i].family && !db.rows[k].revoked
                         && db.rows[k].expiresAt > now
    ensures RotateResult(db, db.rows[i].hash, now, lifetime, 0).None? <==>
            db.rows[i].revokedAt.None? || now > db.rows[i].revokedAt.value
  {
    RotateSucceedsIff(db, i, now, lifetime, 0);
  }

  const ONE_USER := Db(map[3 := User(0, true)], [], 0)

  const LOGGED_IN := ONE_USER.(rows := [Row(0, 3, 1, false, None, 1000)], next := 2)

  const REFRESHED :=
    ONE_USER.(rows := [Row(0, 3, 1, true, Some(10), 1000), Row(2, 3, 1, false, None, 1010)], next := 3)

  lemma LoginStep()
    ensures Create(ONE_USER, 3, 0, 1000) == LOGGED_IN
  {
  }

  lemma RefreshStep()
    ensures Rotate(LOGGED_IN, 0, 10, 1000, 0) == REFRESHED
  {
    hide FindByHash, FindLive, RevokeSelected;
    FoundIs(LOGGED_IN.rows, 0);
    assert LOGGED_IN.rows[0 := Revoke(LOGGED_IN.rows[0], 10)] == [Row(0, 3, 1, true, Some(10), 1000)];
  }

  lemma RefreshedIsReached()
    ensures Run(ONE_USER, [DoCreate(3, 0, 1000), DoRotate(0, 10, 1000)], 0) == REFRESHED
  {
    hide Create, Rotate;
    var create, rotate := DoCreate(3, 0, 1000), DoRotate(0, 10, 1000);
    LoginStep();
    RefreshStep();
    assert [create, rotate][..1] == [create] && [create][..0] == [];
    assert Run(ONE_USER, [create], 0) == LOGGED_IN;
  }

  /** A login at 0, a refresh at 10, and the consumed token presented once more at 10: with no grace it is answered. */
  lemma ZeroGraceReplayIsAnswered()
    ensures var used := Run(ONE_USER, [DoCreate(3, 0, 1000), DoRotate(0, 10, 1000)], 0);
            && |used.rows| == 2 && used.rows[0].revoked
            && RotateResult(used, used.rows[0].hash, 10, 1000, 0).Some?
  {
    hide RotateResult, Run, Inv;
    RefreshedIsReached();
    ReachableStates(ONE_USER.users, [DoCreate(3, 0, 1000), DoRotate(0, 10, 1000)], 0);
    assert REFRESHED.rows[1].family == 1 && !REFRESHED.rows[1].revoked && REFRESHED.rows[1].expiresAt > 10;
    ZeroGraceIsStrictIff(REFRESHED, 0, 10, 1000);
  }

  // ---------------------------------------------------------------- ending sessions

  /** The family of the token a session end is told to spare, if that token is known. */
  ghost predicate Spared(rows: seq<Row>, except: Option<Hash>, f: Family) {
    except.Some? && exists k :: 0 <= k < |rows| && rows[k].hash == except.value && rows[k].family == f
  }

  /** A session end raises the version and revokes the user's rows outside the spared family, and no other row. */
  lemma EndSessionsRevokes(db: Db, u: UserId, except: Option<Hash>, now: int)
    requires Inv(db) && u in db.users
    ensures var after := EndSessions(db, u, except, now);
            && after.users == db.users[u := db.users[u].(version := db.users[u].version + 1)]
            && |after.rows| == |db.rows|
            && forall i :: 0 <= i < |db.rows| ==>
                 after.rows[i] == if db.rows[i].user == u && !Spared(db.rows, except, db.rows[i].family) && !db.rows[i].revoked
                                  then db.rows[i].(revoked := true, revokedAt := Some(now)) else db.rows[i]
  {
    if except.Some? {
      var found := FindByHash(db.rows, except.value);
      forall f
        ensures Spared(db.rows, except, f) <==> found.Some? && db.rows[found.value].family == f
      {
      }
    }
  }

  /**
   * So every family of the user but the spared one has no live token left, all of them if there is nothing to
   * spare, and the spared family and other users keep what they had.
   */
  lemma EndSessionsKills(db: Db, u: UserId, except: Option<Hash>, now: int)
    requires Inv(db) && u in db.users
    ensures var after := EndSessions(db, u, except, now);
            && (forall i :: 0 <= i < |db.rows| && db.rows[i].user == u && !Spared(db.rows, except, db.rows[i].family) ==>
                  !Alive(after.rows, db.rows[i].family))
            && (except.None? || (forall k :: 0 <= k < |db.rows| ==> db.rows[k].hash != except.value) ==>
                  forall i :: 0 <= i < |db.rows| && db.rows[i].user == u ==> !Alive(after.rows, db.rows[i].family))
            && (forall i :: 0 <= i < |db.rows| && (db.rows[i].user != u || Spared(db.rows, except, db.rows[i].family)) ==>
                  (Alive(after.rows, db.rows[i].family) <==> Alive(db.rows, db.rows[i].family)))
  {
    hide EndSessions, FindByHash, Spared;
    var after := EndSessions(db, u, except, now);
    EndSessionsRevokes(db, u, except, now);
    forall i | 0 <= i < |db.rows|
      ensures db.rows[i].user == u && !Spared(db.rows, except, db.rows[i].family) ==> !Alive(after.rows, db.rows[i].family)
      ensures db.rows[i].user != u || Spared(db.rows, except, db.rows[i].family) ==>
                (Alive(after.rows, db.rows[i].family) <==> Alive(db.rows, db.rows[i].family))
    {
      EndOfFamily(db, after.rows, u, except, now, i);
    }
    NothingToSpare(db.rows, except);
  }

  lemma NothingToSpare(rows: seq<Row>, except: Option<Hash>)
    ensures except.None? || (forall k :: 0 <= k < |rows| ==> rows[k].hash != except.value) ==>
              forall f :: !Spared(rows, except, f)
  {
  }

  lemma EndOfFamily(db: Db, after: seq<Row>, u: UserId, except: Option<Hash>, now: int, i: nat)
    requires Inv(db) && i < |db.rows| == |after|
    requires forall k :: 0 <= k < |db.rows| ==>
               after[k] == if db.rows[k].user == u && !Spared(db.rows, except, db.rows[k].family) && !db.rows[k].revoked
                           then db.rows[k].(revoked := true, revokedAt := Some(now)) else db.rows[k]
    ensures db.rows[i].user == u && !Spared(db.rows, except, db.rows[i].family) ==> !Alive(after, db.rows[i].family)
    ensures db.rows[i].user != u || Spared(db.rows, except, db.rows[i].family) ==>
              (Alive(after, db.rows[i].family) <==> Alive(db.rows, db.rows[i].family))
  {
    hide Spared;
    var f := db.rows[i].family;
    forall k | 0 <= k < |db.rows| && db.rows[k].family == f
      ensures db.rows[k].user == db.rows[i].user
    {
    }
    if db.rows[i].user != u || Spared(db.rows, except, f) {
      forall k | 0 <= k < |db.rows| && db.rows[k].family == f
        ensures after[k] == db.rows[k]
      {
      }
    }
  }

  lemma EndKeeps(db: Db, u: UserId, except: Option<Hash>, now: int)
    requires Inv(db) && u in db.users
    ensures Inv(EndSessions(db, u, except, now))
    ensures forall i :: 0 <= i < |db.rows| ==>
              i < |EndSessions(db, u, except, now).rows| && EndSessions(db, u, except, now).rows[i].family == db.rows[i].family
    ensures forall i :: 0 <= i < |db.rows| ==> Exists(EndSessions(db, u, except, now), db.rows[i].family)
  {
    hide Inv;
    ApplyKeeps(db, DoEndSessions(u, except, now), 0);
  }

  /** After a session end, in every later run, no token of an ended family is ever exchanged again. */
  lemma EndedFamiliesStayEnded(db: Db, u: UserId, except: Option<Hash>, now: int, later: seq<Action>, grace: int,
                               i: nat, j: nat, thenNow: int, lifetime: int)
    requires Inv(db) && u in db.users
    requires i < |db.rows| && db.rows[i].user == u && !Spared(db.rows, except, db.rows[i].family)
    requires var after := Run(EndSessions(db, u, except, now), later, grace);
             j < |after.rows| && after.rows[j].family == db.rows[i].family
    ensures var after := Run(EndSessions(db, u, except, now), later, grace);
            RotateResult(after, after.rows[j].hash, thenNow, lifetime, grace).None?
  {
    hide Inv, Apply, EndSelection, RevokeSelected, RotateResult, Alive, BumpVersion, Spared;
    var ended := EndSessions(db, u, except, now);
    EndSessionsKills(db, u, except, now);
    EndKeeps(db, u, except, now);
    assert ended.rows[i].family == db.rows[i].family;
    DeadStaysDead(ended, later, db.rows[i].family, grace);
    RunKeeps(ended, later, grace);
    DeadNeverRotates(Run(ended, later, grace), j, thenNow, lifetime, grace);
  }

  // ---------------------------------------------------------------- access tokens and the version

  datatype AccessToken = AccessToken(user: UserId, av: nat)

  /** With a version the token carries it; without one it carries the version at the moment of issue. */
  function SignAccessToken(db: Db, u: UserId, av: Option<nat>): Option<AccessToken> {
    if av.Some? then Some(AccessToken(u, av.value))
    else if u in db.users then Some(AccessToken(u, db.users[u].version))
    else None
  }

  /** The session-version guard, reading the database. */
  predicate Accepted(db: Db, t: AccessToken) {
    t.user in db.users && db.users[t.user].version == t.av
  }

  lemma {:induction false} VersionsOnlyRise(db: Db, actions: seq<Action>, grace: int, u: UserId)
    requires u in db.users
    ensures u in Run(db, actions, grace).users
    ensures Run(db, actions, grace).users[u].version >= db.users[u].version
  {
    if actions != [] {
      VersionsOnlyRise(db, actions[..|actions| - 1], grace, u);
    }
  }

  /**
   * A rotation answered before a session end yields a dead access token: whatever happens between the
   * rotation, the end and the signing, the token carries a lower version and is refused ever after.
   */
  lemma EndOutrunsRotation(db: Db, h: Hash, now: int, lifetime: int, grace: int, between: seq<Action>,
                           except: Option<Hash>, endNow: int, later: seq<Action>, signing: Db)
    requires Inv(db)
    requires RotateResult(db, h, now, lifetime, grace).Some?
    ensures var r := RotateResult(db, h, now, lifetime, grace).value;
            var atEnd := Run(Rotate(db, h, now, lifetime, grace), between, grace);
            var ended := EndSessions(atEnd, r.user, except, endNow);
            var token := SignAccessToken(signing, r.user, Some(r.authzVersion)).value;
            && r.user in ended.users
            && token.av < ended.users[r.user].version
            && !Accepted(Run(ended, later, grace), token)
  {
    var i := FindByHash(db.rows, h).value;
    SuccessorIsLive(db, i, now, lifetime, grace);
    var r := RotateResult(db, h, now, lifetime, grace).value;
    var rotated := Rotate(db, h, now, lifetime, grace);
    assert rotated.users == db.users;
    VersionsOnlyRise(rotated, between, grace, r.user);
    var ended := EndSessions(Run(rotated, between, grace), r.user, except, endNow);
    VersionsOnlyRise(ended, later, grace, r.user);
  }

  // ---------------------------------------------------------------- bursts converge

  /** The action presents a token of family f. */
  predicate Presents(db: Db, a: Action, f: Family) {
    a.DoRotate? && FindByHash(db.rows, a.hash).Some? && db.rows[FindByHash(db.rows, a.hash).value].family == f
  }

  /** A presentation the grace window is for: fresh, or consumed recently while the live token has not expired. */
  ghost predicate Benign(db: Db, a: Action, f: Family, grace: int) {
    && Presents(db, a, f)
    && var row := db.rows[FindByHash(db.rows, a.hash).value];
       && row.user in db.users && db.users[row.user].active
       && (row.revoked ==> row.revokedAt.Some? && a.now - row.revokedAt.value <= grace)
       && (row.revoked ==> forall i :: 0 <= i < |db.rows| && db.rows[i].family == f && !db.rows[i].revoked ==>
             db.rows[i].expiresAt > a.now)
       && (!row.revoked ==> row.expiresAt >= a.now)
  }

  /** The action does not reach into family f. */
  ghost predicate Spares(db: Db, a: Action, f: Family) {
    match a
    case DoRotate(_, _, _) => !Presents(db, a, f)
    case DoRevokeFamily(h, _) =>
      FindByHash(db.rows, h).Some? ==> db.rows[FindByHash(db.rows, h).value].family != f
    case DoRevokeAll(u, _) => forall i :: 0 <= i < |db.rows| && db.rows[i].family == f ==> db.rows[i].user != u
    case DoEndSessions(u, except, _) =>
      Spared(db.rows, except, f) || forall i :: 0 <= i < |db.rows| && db.rows[i].family == f ==> db.rows[i].user != u
    case _ => true
  }

  /** Every step of the run is a benign presentation of f or leaves f alone. */
  ghost predicate Burst(db: Db, actions: seq<Action>, f: Family, grace: int) {
    actions == [] ||
    var n := |actions| - 1;
    && Burst(db, actions[..n], f, grace)
    && (Benign(Run(db, actions[..n], grace), actions[n], f, grace) || Spares(Run(db, actions[..n], grace), actions[n], f))
  }

  lemma SparedStaysAlive(db: Db, a: Action, f: Family, grace: int)
    requires Inv(db) && Alive(db.rows, f) && Spares(db, a, f)
    ensures Alive(Apply(db, a, grace).rows, f)
  {
    var k :| 0 <= k < |db.rows| && db.rows[k].family == f && !db.rows[k].revoked;
    var after := Apply(db, a, grace);
    if a.DoRotate? {
      RotationElsewhere(db, a.hash, a.now, a.lifetime, grace, k);
    } else if a.DoEndSessions? && a.user in db.users {
      EndSessionsRevokes(db, a.user, a.except, a.now);
    }
    assert after.rows[k] == db.rows[k];
  }

  lemma RotationElsewhere(db: Db, h: Hash, now: int, lifetime: int, grace: int, k: nat)
    requires k < |db.rows|
    requires FindByHash(db.rows, h).Some? ==> db.rows[FindByHash(db.rows, h).value].family != db.rows[k].family
    ensures k < |Rotate(db, h, now, lifetime, grace).rows|
    ensures Rotate(db, h, now, lifetime, grace).rows[k] == db.rows[k]
  {
  }

  lemma BenignSucceeds(db: Db, a: Action, f: Family, grace: int)
    requires Inv(db) && Alive(db.rows, f) && Benign(db, a, f, grace)
    ensures RotateResult(db, a.hash, a.now, a.lifetime, grace).Some?
    ensures Alive(Apply(db, a, grace).rows, f)
    ensures a.lifetime > 0 ==> Usable(Apply(db, a, grace).rows, f, a.now)
  {
    var i := FindByHash(db.rows, a.hash).value;
    var k :| 0 <= k < |db.rows| && db.rows[k].family == f && !db.rows[k].revoked;
    assert db.rows[i].revoked ==> db.rows[k].expiresAt > a.now;
    RotateSucceedsIff(db, i, a.now, a.lifetime, grace);
    SuccessorIsLive(db, i, a.now, a.lifetime, grace);
    assert Apply(db, a, grace).rows[|db.rows|].family == f;
  }

  /** Some unrevoked token of the family has not expired. */
  ghost predicate Usable(rows: seq<Row>, f: Family, now: int) {
    exists i :: 0 <= i < |rows| && rows[i].family == f && !rows[i].revoked && rows[i].expiresAt > now
  }

  /** If step k presents a token of f, it is answered with a successor, and the family has an unexpired token after it. */
  ghost predicate Answered(db: Db, actions: seq<Action>, f: Family, grace: int, k: nat)
    requires k < |actions|
  {
    var before, a := Run(db, actions[..k], grace), actions[k];
    Presents(before, a, f) ==>
      && RotateResult(before, a.hash, a.now, a.lifetime, grace).Some?
      && (a.lifetime > 0 ==> Usable(Apply(before, a, grace).rows, f, a.now))
  }

  /**
   * However a burst of presentations of one family is ordered and interleaved with other work, each is
   * answered with a successor, unexpired for as long as its lifetime says, and the family ends with exactly
   * one unrevoked token.
   */
  lemma {:induction false} BurstConverges(db: Db, actions: seq<Action>, f: Family, grace: int)
    requires Inv(db) && Alive(db.rows, f) && Burst(db, actions, f, grace)
    ensures Alive(Run(db, actions, grace).rows, f) && SingleLive(Run(db, actions, grace).rows)
    ensures forall k :: 0 <= k < |actions| ==> Answered(db, actions, f, grace, k)
  {
    hide Apply, RotateResult, Benign, Spares, Presents, Alive, Usable, Inv;
    assert SingleLive(Run(db, actions, grace).rows) by {
      RunSingleLive(db, actions, grace);
    }
    if actions != [] {
      var n := |actions| - 1;
      BurstConverges(db, actions[..n], f, grace);
      RunKeeps(db, actions[..n], grace);
      BurstStep(Run(db, actions[..n], grace), actions[n], f, grace);
      forall k | 0 <= k < n
        ensures Answered(db, actions, f, grace, k)
      {
        assert actions[..n][..k] == actions[..k] && actions[..n][k] == actions[k];
        assert Answered(db, actions[..n], f, grace, k);
      }
    }
  }

  lemma RunSingleLive(db: Db, actions: seq<Action>, grace: int)
    requires Inv(db)
    ensures SingleLive(Run(db, actions, grace).rows)
  {
    RunKeeps(db, actions, grace);
  }

  lemma BurstStep(db: Db, a: Action, f: Family, grace: int)
    requires Inv(db) && Alive(db.rows, f)
    requires Benign(db, a, f, grace) || Spares(db, a, f)
    ensures Alive(Apply(db, a, grace).rows, f)
    ensures Presents(db, a, f) ==> RotateResult(db, a.hash, a.now, a.lifetime, grace).Some?
    ensures Presents(db, a, f) && a.lifetime > 0 ==> Usable(Apply(db, a, grace).rows, f, a.now)
  {
    if Presents(db, a, f) {
      BenignSucceeds(db, a, f, grace);
    } else {
      SparedStaysAlive(db, a, f, grace);
    }
  }
}
