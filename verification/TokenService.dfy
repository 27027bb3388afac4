/**
 * The token service over its tables, and the two authentication flows whose ordering matters: a
 * refresh signs with the version read under the lock, a session end publishes the version it bumped to.
 */
module TokenService {
  import opened Common
  import opened RefreshTokens
  import AuthzVersion

  class TokenStore {
    const grace: int
    var users: map<UserId, User>
    var rows: seq<Row>
    var next: nat

    function State(): Db
      reads this
    {
      Db(users, rows, next)
    }

    constructor (users: map<UserId, User>, grace: int)
      ensures State() == Db(users, [], 0) && this.grace == grace
      ensures Inv(State())
    {
      this.users, this.grace, rows, next := users, grace, [], 0;
    }

    /** `randomUUID()`: a value never yielded before. */
    method RandomUuid() returns (id: nat)
      modifies this`next
      ensures id == old(next) && next == old(next) + 1
    {
      id := next;
      next := next + 1;
    }

    method CreateRefreshToken(u: UserId, now: int, lifetime: int) returns (raw: Option<Hash>)
      modifies this`rows, this`next
      ensures State() == Create(old(State()), u, now, lifetime)
      ensures raw == if u in users then Some(old(next)) else None
      ensures u in users && Inv(old(State())) ==>
                && |rows| == |old(rows)| + 1
                && rows[|old(rows)|].(family := 0) == Row(raw.value, u, 0, false, None, now + lifetime)
                && forall i :: 0 <= i < |old(rows)| ==>
                     rows[i] == old(rows)[i] && rows[i].family != rows[|old(rows)|].family && rows[i].hash != raw.value
    {
      if u !in users {
        return None;
      }
      var newRaw := RandomUuid();
      var family := RandomUuid();
      rows := rows + [Row(newRaw, u, family, false, None, now + lifetime)];
      return Some(newRaw);
    }

    /** Consumes one live row and issues its successor in the same family. */
    method RotateOneRow(i: nat, now: int, lifetime: int) returns (newRaw: Hash)
      requires i < |rows|
      modifies this`rows, this`next
      ensures State() == RotateRow(old(State()), i, now, lifetime)
      ensures newRaw == old(next)
    {
      var row := rows[i];
      rows := rows[i := row.(revoked := true, revokedAt := Some(now))];
      newRaw := RandomUuid();
      rows := rows + [Row(newRaw, row.user, row.family, false, None, now + lifetime)];
    }

    /** Under the owner's lock: decide again, then rotate, revoke the family, or revoke the expired token. */
    method RotateUnderLock(h: Hash, now: int, lifetime: int) returns (r: Option<(UserId, Hash)>)
      modifies this`rows, this`next
      ensures State() == RotateLocked(old(State()), h, now, lifetime, grace)
      ensures match RotationTarget(old(State()), h, now, grace)
              case None => r == None
              case Some(i) => r == Some((old(rows)[i].user, old(next)))
    {
      var found := FindByHash(rows, h);
      if found.None? {
        return None;
      }
      var existing := rows[found.value];
      if existing.revoked {
        if existing.revokedAt.Some? && now - existing.revokedAt.value <= grace {
          var live := FindLive(rows, existing.family, now);
          if live.Some? {
            var owner := rows[live.value].user;
            var newRaw := RotateOneRow(live.value, now, lifetime);
            return Some((owner, newRaw));
          }
        }
        rows := RevokeSelected(rows, OfFamily(existing.family), now);
        return None;
      }
      if existing.expiresAt < now {
        rows := rows[found.value := existing.(revoked := true, revokedAt := Some(now))];
        return None;
      }
      var newRaw := RotateOneRow(found.value, now, lifetime);
      return Some((existing.user, newRaw));
    }

    method RotateRefreshToken(h: Hash, now: int, lifetime: int) returns (r: Option<Rotated>)
      modifies this`rows, this`next
      ensures State() == Rotate(old(State()), h, now, lifetime, grace)
      ensures r == RotateResult(old(State()), h, now, lifetime, grace)
    {
      var found := FindByHash(rows, h);
      if found.None? {
        return None;
      }
      var owner := rows[found.value].user;
      if owner !in users || !users[owner].active {
        return None;
      }
      var version := users[owner].version;
      var rotated := RotateUnderLock(h, now, lifetime);
      if rotated.None? {
        return None;
      }
      return Some(Rotated(rotated.value.0, rotated.value.1, now + lifetime, version));
    }

    method RevokeFamilyOf(h: Hash, now: int)
      modifies this`rows
      ensures State() == RevokeFamily(old(State()), h, now)
    {
      var found := FindByHash(rows, h);
      if found.Some? {
        rows := RevokeSelected(rows, OfFamily(rows[found.value].family), now);
      }
    }

    method RevokeAllForUser(u: UserId, now: int)
      modifies this`rows
      ensures State() == RevokeAll(old(State()), u, now)
    {
      rows := RevokeSelected(rows, OfUser(u), now);
    }

    /** Bump and revoke in one transaction; the new version goes to the caller, or nothing for an unknown user. */
    method EndSessionsOf(u: UserId, except: Option<Hash>, now: int) returns (version: Option<nat>)
      modifies this`users, this`rows
      ensures State() == EndSessions(old(State()), u, except, now)
      ensures version == if u in users then Some(users[u].version) else None
    {
      if u !in users {
        return None;
      }
      users := users[u := users[u].(version := users[u].version + 1)];
      var current := if except.Some? then FindByHash(rows, except.value) else None;
      if current.Some? {
        rows := RevokeSelected(rows, OfUserExcept(u, rows[current.value].family), now);
      } else {
        rows := RevokeSelected(rows, OfUser(u), now);
      }
      return Some(users[u].version);
    }
  }

  class AuthService {
    const tokens: TokenStore
    var cache: map<nat, nat>

    constructor (tokens: TokenStore)
      ensures this.tokens == tokens && cache == map[]
    {
      this.tokens, cache := tokens, map[];
    }

    /** Rotation first, then the account checks, then signing with the version of the rotation. */
    method RefreshTokens(h: Hash, now: int, lifetime: int, allowed: UserId -> bool)
      returns (r: Option<(AccessToken, Hash)>)
      modifies tokens`rows, tokens`next
      ensures tokens.State() == Rotate(old(tokens.State()), h, now, lifetime, tokens.grace)
      ensures match RotateResult(old(tokens.State()), h, now, lifetime, tokens.grace)
              case None => r == None
              case Some(rotated) =>
                r == if rotated.user in tokens.users && tokens.users[rotated.user].active && allowed(rotated.user)
                     then Some((AccessToken(rotated.user, rotated.authzVersion), rotated.newRaw)) else None
    {
      var result := tokens.RotateRefreshToken(h, now, lifetime);
      if result.None? {
        return None;
      }
      var u := result.value.user;
      if u !in tokens.users || !tokens.users[u].active || !allowed(u) {
        return None;
      }
      var access := SignAccessToken(tokens.State(), u, Some(result.value.authzVersion));
      return Some((access.value, result.value.newRaw));
    }

    /** End, then publish the version the end returned. */
    method EndOtherSessions(u: UserId, current: Option<Hash>, now: int, outcome: AuthzVersion.RedisOutcome)
      modifies this`cache, tokens`users, tokens`rows
      ensures tokens.State() == EndSessions(old(tokens.State()), u, current, now)
      ensures cache == if u in tokens.users
                       then AuthzVersion.WrittenThrough(old(cache), u, tokens.users[u].version, outcome)
                       else old(cache)
      ensures u in tokens.users && outcome == AuthzVersion.Written ==>
                u in cache && cache[u] >= tokens.users[u].version
    {
      var version := tokens.EndSessionsOf(u, current, now);
      if version.Some? {
        cache := AuthzVersion.WrittenThrough(cache, u, version.value, outcome);
      }
    }
  }
}
