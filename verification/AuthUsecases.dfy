/**
 The use cases and command-line operations as they run on the repositories: an ordered series of reads, updates and
 audit rows inside one transaction, rolled back when a call raises.  Each is proved to be its step on the tables.
 */
module AuthUsecases {
  import opened Basics
  import opened SessionExpiry
  import opened AuthDatabase
  import opened AuthTransactions
  import opened AuthPromises
  import opened AuthSystem
  import opened AuthRepository

  /** A transaction did what its function says, or was refused and changed nothing. */
  ghost predicate Did(before: Db, after: Db, tx: Option<Db>, ok: bool) {
    ok == tx.Some? && after == if ok then tx.value else before
  }

  /** A command ran as its step of the system does. */
  ghost predicate Ran(before: Db, after: Db, command: Command, ok: bool) {
    Did(before, after, CommandTx(before, command), ok) && (ok ==> CommandFits(before, command))
  }

  /** Some session has the token, active or not. */
  predicate Known(db: Db, tokenHash: Digest) {
    exists id :: id in db.sessions && db.sessions[id].tokenHash == tokenHash
  }

  /** The token is that of a session that lets its user in. */
  predicate LetsIn(db: Db, id: SessionId, tokenHash: Digest, at: Time) {
    MayEnter(db, id, at) && db.sessions[id].tokenHash == tokenHash
  }

  /** The token finds one session at most, so that one decides. */
  lemma FoundSessionDecides(db: Db, settings: Settings, tokenHash: Digest, at: Time, id: SessionId)
    requires TokensUnique(db.sessions) && id in db.sessions && Finds(db.sessions[id], tokenHash, at)
    ensures AuthenticateTx(db, settings, id, at).1 <==> exists k :: LetsIn(db, k, tokenHash, at)
    ensures !AuthenticateTx(db, settings, id, at).1 && db.sessions[id].userId in db.users ==>
              SignedOut(db, AuthenticateTx(db, settings, id, at).0, db.sessions[id].userId)
  {
    RequestGoesThrough(db, settings, id, at);
    assert AuthenticateTx(db, settings, id, at).1 ==> LetsIn(db, id, tokenHash, at);
    if !AuthenticateTx(db, settings, id, at).1 && db.sessions[id].userId in db.users {
      RefusedUserIsSignedOut(db, settings, id, at);
    }
  }

  class AuthUsecase {
    const tables: AuthTables
    const config: Config

    constructor (tables: AuthTables, config: Config)
      ensures this.tables == tables && this.config == config
    {
      this.tables, this.config := tables, config;
    }

    // ----- sign-up, sign-in, requests, sign-out -----

    method Register(id: UserId, email: string, passwordHash: nat, newSession: NewSession, at: Time) returns (ok: bool)
      requires tables.Valid() && id !in tables.users && FreshToken(tables.sessions, newSession.tokenHash)
      modifies tables
      ensures tables.Valid()
      ensures Did(old(tables.View()), tables.View(),
                  RegisterTx(old(tables.View()), config.sessions, id, email, passwordHash, newSession, at), ok)
    {
      ok := tables.CreateUser(id, email, Some(passwordHash), true);
      if !ok {
        return;
      }
      ok := tables.RecordUserLogin(id, at);
      tables.ReplaceAuthSession(config.sessions, id, newSession);
      tables.CreateAuditLog(OtherEvent("REGISTER_SUCCESS"));
    }

    /** The first half of a login: a wrong address or password, or an inactive user, is logged and refused. */
    method CheckPassword(email: string, verifiedHash: Option<nat>) returns (found: Option<UserId>)
      requires tables.Valid()
      modifies tables
      ensures tables.Valid() && found == Credentialed(old(tables.View()), email, verifiedHash)
      ensures forall user :: found == Some(user) <==>
                && HasEmail(old(tables.View()), user, email) && old(tables.users)[user].isActive
                && old(tables.users)[user].passwordHash.Some?
                && verifiedHash == old(tables.users)[user].passwordHash
      ensures tables.View() == if found.Some? then old(tables.View())
                               else Log(old(tables.View()), [OtherEvent("LOGIN_FAILED")])
    {
      found := tables.FindUserByEmail(email);
      if found.Some? {
        var user := tables.users[found.value];
        if user.isActive && user.passwordHash != None && verifiedHash == user.passwordHash {
          return;
        }
      }
      found := None;
      tables.CreateAuditLog(OtherEvent("LOGIN_FAILED"));
    }

    /** The second half: the user was looked up, and the password checked, before the transaction. */
    method Login(user: UserId, newSession: NewSession, at: Time) returns (ok: bool)
      requires tables.Valid() && FreshToken(tables.sessions, newSession.tokenHash)
      modifies tables
      ensures tables.Valid()
      ensures Did(old(tables.View()), tables.View(), LoginTx(old(tables.View()), config.sessions, user, newSession, at), ok)
    {
      ok := tables.RecordUserLogin(user, at);
      if !ok {
        return;
      }
      tables.ReplaceAuthSession(config.sessions, user, newSession);
      tables.CreateAuditLog(OtherEvent("LOGIN_SUCCESS"));
    }

    /**
     `found` is the active session of the token; a context is returned only for a session of an active user.  A token
     that is known but not active is a replay: `startsRow` says whether it starts an audit row of its own or is folded
     into one (or finds the lock taken).
     */
    method AuthenticateSession(tokenHash: Digest, at: Time, startsRow: bool) returns (found: Option<SessionId>, ok: bool)
      requires tables.Valid()
      modifies tables
      ensures tables.Valid()
      ensures found == None ==>
                && !ok && (forall id :: id in tables.sessions ==> !Finds(tables.sessions[id], tokenHash, at))
                && tables.View() == if startsRow && Known(old(tables.View()), tokenHash)
                                    then Log(old(tables.View()), [OtherEvent("SESSION_REJECTED")]) else old(tables.View())
      ensures found.Some? ==>
                && found.value in old(tables.sessions) && Finds(old(tables.sessions)[found.value], tokenHash, at)
                && (tables.View(), ok) == AuthenticateTx(old(tables.View()), config.sessions, found.value, at)
      ensures ok <==> exists id :: LetsIn(old(tables.View()), id, tokenHash, at)
      ensures found.Some? && !ok && old(tables.sessions)[found.value].userId in old(tables.users) ==>
                SignedOut(old(tables.View()), tables.View(), old(tables.sessions)[found.value].userId)
    {
      ok := false;
      found := tables.FindActiveSessionByTokenHash(tokenHash, at);
      if found == None {
        if startsRow && Known(tables.View(), tokenHash) {
          tables.CreateAuditLog(OtherEvent("SESSION_REJECTED"));
        }
        return;
      }
      FoundSessionDecides(tables.View(), config.sessions, tokenHash, at, found.value);
      var session := tables.sessions[found.value];
      if session.userId !in tables.users {
        tables.RevokeSession(found.value, at);
        tables.CreateAuditLog(OtherEvent("SESSION_REJECTED"));
        return;
      }
      var user := tables.users[session.userId];
      if user.deletedAt != None {
        tables.RevokeSessionsForUser(session.userId, at);
        tables.CreateAuditLog(OtherEvent("SESSION_REVOKED_DELETED_USER"));
        return;
      }
      if !user.isActive {
        tables.RevokeSessionsForUser(session.userId, at);
        tables.CreateAuditLog(OtherEvent("SESSION_REVOKED_INACTIVE_USER"));
        return;
      }
      var interval := EffectiveTouchInterval(config.sessions);
      if interval <= 0 || at - session.times.lastSeenAt >= interval * SECOND {
        ok := tables.TouchSession(found.value, at, CalculateSessionExpiry(config.sessions, session.times.issuedAt, at));
      }
      ghost var touched := session.(times := AfterRequest(config.sessions, session.times, at));
      assert tables.sessions == old(tables.sessions)[found.value := touched];
      ok := true;
    }

    /** The session was found before the transaction and may be gone or revoked by now. */
    method Logout(id: SessionId, at: Time)
      requires tables.Valid()
      modifies tables
      ensures tables.Valid() && tables.View() == LogoutTx(old(tables.View()), id, at)
    {
      tables.RevokeSession(id, at);
      tables.CreateAuditLog(OtherEvent("LOGOUT"));
    }

    // ----- OIDC -----

    /** A start for a reauthentication needs a session; what leaves for browser and provider is returned. */
    method StartAuthorization(stateHash: Digest, verifier: nat, bindingHash: Digest, nonceHash: Digest,
                              providerId: string, purpose: Purpose, current: Option<Context>, at: Time)
      returns (start: Option<Start>)
      requires tables.Valid() && stateHash !in tables.oidcStates
      modifies tables
      ensures tables.Valid() && start.Some? == (purpose == LoginPurpose || current.Some?)
      ensures start == None ==> tables.View() == old(tables.View())
      ensures start.Some? ==>
                && start.value == Start(bindingHash, nonceHash, S256(verifier), providerId, at + config.stateTtl * SECOND)
                && tables.View() == old(tables.View()).(oidcStates := tables.oidcStates)
                && tables.oidcStates == old(tables.oidcStates)[stateHash :=
                     NewState(verifier, bindingHash, nonceHash, providerId, purpose, current, start.value.expiresAt)]
      ensures start.Some? ==>
                var state := tables.oidcStates[stateHash];
                && state.bindingHash == bindingHash && state.nonceHash == nonceHash && state.pkceVerifier == verifier
                && state.provider == providerId && state.purpose == purpose && state.consumedAt == None
                && state.expiresAt == Stored(at + config.stateTtl * SECOND)
                && (if current.Some?
                    then && state.expectedUser == Some(current.value.user)
                         && state.expectedSession == Some(current.value.session)
                    else state.expectedUser == None && state.expectedSession == None)
    {
      if purpose == DeletionReauth && current == None {
        return None;
      }
      var user: Option<UserId>, session: Option<SessionId> := None, None;
      if current.Some? {
        user, session := Some(current.value.user), Some(current.value.session);
      }
      var expiresAt := at + config.stateTtl * SECOND;
      tables.CreateOidcAuthorizationState(stateHash,
        OidcState(bindingHash, nonceHash, verifier, providerId, purpose, user, session, Stored(expiresAt), None));
      return Some(Start(bindingHash, nonceHash, S256(verifier), providerId, expiresAt));
    }

    /** A callback without the binding cookie, or for another provider, gives no state; the latter still consumes it. */
    method ConsumeCallbackState(providerId: string, stateHash: Digest, binding: Option<Digest>, at: Time)
      returns (accepted: Option<OidcState>)
      requires tables.Valid()
      modifies tables
      ensures tables.Valid()
      ensures tables.View() == if binding == None then old(tables.View())
                               else ConsumeTx(old(tables.View()), stateHash, binding.value, at)
      ensures accepted.Some? <==>
                && binding.Some? && stateHash in old(tables.oidcStates)
                && old(tables.oidcStates)[stateHash].consumedAt == None && old(tables.oidcStates)[stateHash].expiresAt > at
                && old(tables.oidcStates)[stateHash].bindingHash == binding.value
                && old(tables.oidcStates)[stateHash].provider == providerId
      ensures accepted.Some? ==> accepted.value == tables.oidcStates[stateHash]
    {
      if binding == None {
        return None;
      }
      var status := tables.ConsumeOidcAuthorizationState(stateHash, binding.value, at);
      if status != Consumed {
        return None;
      }
      var state := tables.oidcStates[stateHash];
      if state.provider != providerId {
        return None;
      }
      return Some(state);
    }

    method ResolveLoginUserAndIdentity(provider: Provider, claims: Claims, newUser: UserId)
      returns (user: Option<UserId>, setup: Option<string>)
      requires tables.Valid() && newUser !in tables.users
      modifies tables`users, tables`identities
      ensures tables.Valid()
      ensures user.Some? == ResolveLogin(old(tables.View()), provider, claims, newUser).Some?
      ensures user.Some? ==>
                ResolveLogin(old(tables.View()), provider, claims, newUser)
                == Some(Resolved(tables.View(), user.value, setup))
      ensures user == None ==> tables.View() == old(tables.View())
      ensures user.Some? <==>
                var key := IdentityKey(provider.id, claims.subject);
                var before := old(tables.View());
                if key in before.identities then
                  && before.identities[key] in before.users
                  && before.users[before.identities[key]].deletedAt == None
                  && before.users[before.identities[key]].isActive
                else
                  && provider.trustVerifiedEmail && claims.emailVerified
                  && claims.email.Some? && claims.email.value != ""
                  && (forall u :: HasEmail(before, u, claims.email.value) ==>
                        before.users[u].isActive && provider.linkMode == Auto)
                  && ((forall u :: !HasEmail(before, u, claims.email.value)) ==> provider.autoProvision)
      ensures user.Some? ==>
                var key := IdentityKey(provider.id, claims.subject);
                && key in tables.identities && tables.identities[key] == user.value
                && user.value in tables.users && tables.users[user.value].deletedAt == None
                && tables.users[user.value].isActive
                && (key !in old(tables.identities) ==> tables.users[user.value].email == claims.email.value)
    {
      SignInGoesThrough(tables.View(), provider, claims, newUser);
      if ResolveLogin(tables.View(), provider, claims, newUser).Some? {
        SignInLinks(tables.View(), provider, claims, newUser);
      }
      var key := IdentityKey(provider.id, claims.subject);
      if key in tables.identities {
        var holder := tables.identities[key];
        if holder !in tables.users || tables.users[holder].deletedAt != None || !tables.users[holder].isActive {
          return None, None;
        }
        return Some(holder), None;
      }
      var email := TrustedVerifiedEmail(provider, claims);
      if email == None {
        return None, None;
      }
      var found := tables.FindUserByEmail(email.value);
      if found.Some? && tables.users[found.value].isActive {
        if provider.linkMode != Auto {
          return None, None;
        }
        tables.CreateAuthIdentity(key, found.value);
        return found, Some("OIDC_IDENTITY_LINKED");
      }
      if found.Some? || !(provider.trustVerifiedEmail && provider.autoProvision) {
        return None, None;
      }
      var created := tables.CreateUser(newUser, email.value, None, true);
      if !created {
        return None, None;
      }
      tables.CreateAuthIdentity(key, newUser);
      return Some(newUser), Some("OIDC_USER_PROVISIONED");
    }

    method CompleteLoginCallback(provider: Provider, claims: Claims, newUser: UserId, newSession: NewSession, at: Time)
      returns (user: Option<UserId>, setup: Option<string>)
      requires tables.Valid() && newUser !in tables.users && FreshToken(tables.sessions, newSession.tokenHash)
      modifies tables
      ensures tables.Valid()
      ensures user.Some? == OidcLoginTx(old(tables.View()), config.sessions, provider, claims, newUser, newSession, at).Some?
      ensures user.Some? ==>
                OidcLoginTx(old(tables.View()), config.sessions, provider, claims, newUser, newSession, at)
                == Some(Resolved(tables.View(), user.value, setup))
      ensures user == None ==> tables.View() == old(tables.View())
      ensures user.Some? ==>
                && Live(tables.View(), user.value) && tables.users[user.value].isActive
                && newSession.id in tables.sessions && tables.sessions[newSession.id].userId == user.value
                && (IdentityKey(provider.id, claims.subject) !in old(tables.identities) ==>
                      && provider.trustVerifiedEmail && claims.emailVerified
                      && claims.email == Some(tables.users[user.value].email))
    {
      user, setup := ResolveLoginUserAndIdentity(provider, claims, newUser);
      if user == None {
        return;
      }
      var ok := tables.RecordUserLogin(user.value, at);
      tables.ReplaceAuthSession(config.sessions, user.value, newSession);
      ok := tables.RecordOidcTime(newSession.id, claims.authTime);
      if setup.Some? {
        tables.CreateAuditLog(OtherEvent(setup.value));
      }
      tables.CreateAuditLog(OtherEvent("OIDC_LOGIN_SUCCESS"));
    }

    /** The checks of a reauthentication, then its transaction. */
    method CompleteReauthCallback(acceptance: Acceptance, current: Option<Context>, claims: Claims, at: Time)
      returns (ok: bool)
      requires tables.Valid()
      modifies tables
      ensures tables.Valid()
      ensures Did(old(tables.View()), tables.View(),
                  if current.Some? && ReauthMatches(old(tables.View()), acceptance, current.value, claims, at, config)
                  then ReauthTx(old(tables.View()), current.value.session, claims.authTime.value) else None, ok)
      ensures ok <==>
                && current.Some? && current.value.session in old(tables.sessions)
                && acceptance.state.expectedUser == Some(current.value.user)
                && acceptance.state.expectedSession == Some(current.value.session)
                && IdentityKey(acceptance.provider, claims.subject) in old(tables.identities)
                && old(tables.identities)[IdentityKey(acceptance.provider, claims.subject)] == current.value.user
                && claims.authTime.Some?
                && at - claims.authTime.value * SECOND <= config.reauthFreshness * SECOND
      ensures ok ==> tables.sessions == old(tables.sessions)[current.value.session :=
                       old(tables.sessions)[current.value.session].(lastOidcAt := Some(claims.authTime.value * SECOND))]
    {
      if current == None {
        return false;
      }
      var context, state := current.value, acceptance.state;
      if state.expectedUser != Some(context.user) || state.expectedSession != Some(context.session) {
        return false;
      }
      var key := IdentityKey(acceptance.provider, claims.subject);
      if key !in tables.identities || tables.identities[key] != context.user {
        return false;
      }
      if claims.authTime == None || at - claims.authTime.value * SECOND > config.reauthFreshness * SECOND {
        return false;
      }
      ReauthRecords(tables.View(), context.session, claims.authTime.value);
      ok := tables.RecordOidcTime(context.session, claims.authTime);
      if ok {
        tables.CreateAuditLog(OtherEvent("OIDC_REAUTH_SUCCESS"));
      }
    }

    // ----- deletion -----

    /** The owner's deletion writes no further row, the administrator's one. */
    method DeleteUser(user: UserId, at: Time, rows: seq<Audit>) returns (ok: bool)
      requires tables.Valid() && |rows| <= 1
      modifies tables
      ensures tables.Valid() && Did(old(tables.View()), tables.View(), DeleteUserTx(old(tables.View()), user, at, rows), ok)
    {
      var before := tables.View();
      tables.DeleteRolesForUser(user);
      tables.DeleteAuthIdentitiesForUser(user);
      ok := tables.MarkUserDeleted(user, at);
      if !ok {
        tables.Rollback(before);
        return;
      }
      tables.RevokeSessionsForUser(user, at);
      if |rows| == 1 {
        tables.CreateAuditLog(rows[0]);
        assert rows == [rows[0]];
      } else {
        assert tables.View() == Log(tables.View(), rows);
      }
    }

    /** The owner's request: a verified password, or a fresh OIDC authentication on the session, then the deletion. */
    method DeleteAccount(context: Context, verifiedHash: Option<nat>, checkedAt: Time, deletedAt: Time) returns (ok: bool)
      requires tables.Valid()
      modifies tables
      ensures tables.Valid()
      ensures Did(old(tables.View()), tables.View(),
                  if MayDelete(context, verifiedHash, checkedAt, config)
                  then DeleteUserTx(old(tables.View()), context.user, deletedAt, []) else None, ok)
      ensures ok <==>
                && context.user in old(tables.users)
                && if context.passwordHash.Some? then verifiedHash == context.passwordHash
                   else context.lastOidcAt.Some?
                        && checkedAt - context.lastOidcAt.value <= config.reauthFreshness * SECOND
      ensures ok ==>
                && tables.users[context.user].deletedAt.Some?
                && SignedOut(old(tables.View()), tables.View(), context.user)
    {
      if context.passwordHash.Some? {
        if verifiedHash != context.passwordHash {
          return false;
        }
      } else if context.lastOidcAt == None || checkedAt - context.lastOidcAt.value > config.reauthFreshness * SECOND {
        return false;
      }
      ok := DeleteUser(context.user, deletedAt, []);
    }

    // ----- roles -----

    method AuditGrants(user: UserId, codes: seq<RoleCode>)
      requires tables.Valid()
      modifies tables`audit
      ensures tables.Valid() && tables.View() == Log(old(tables.View()), Grants(user, codes))
    {
      for i := 0 to |codes|
        invariant tables.Valid() && tables.View() == Log(old(tables.View()), Grants(user, codes[..i]))
      {
        tables.CreateAuditLog(RoleGranted(user, codes[i]));
        assert Grants(user, codes[..i + 1]) == Grants(user, codes[..i]) + [RoleGranted(user, codes[i])];
      }
      assert codes[..|codes|] == codes;
    }

    method AuditRevocations(rows: seq<RoleRow>)
      requires tables.Valid()
      modifies tables`audit
      ensures tables.Valid() && tables.View() == Log(old(tables.View()), Revocations(rows))
    {
      for i := 0 to |rows|
        invariant tables.Valid() && tables.View() == Log(old(tables.View()), Revocations(rows[..i]))
      {
        tables.CreateAuditLog(RoleRevoked(rows[i].user, rows[i].code));
        assert Revocations(rows[..i + 1]) == Revocations(rows[..i]) + [RoleRevoked(rows[i].user, rows[i].code)];
      }
      assert rows[..|rows|] == rows;
    }

    /** Roles replaced, then one row for each that was granted and one for each that was revoked. */
    method ReplaceRolesWithAudit(user: UserId, codes: set<RoleCode>) returns (order: RoleOrder)
      requires tables.Valid()
      modifies tables`roles, tables`audit
      ensures tables.Valid() && OrderFits(old(tables.View()), user, codes, order)
      ensures tables.View() == AuthTransactions.ReplaceRolesWithAudit(old(tables.View()), user, codes, order)
    {
      order := tables.ReplaceUserRoles(user, codes);
      AuditGrants(user, order.granted);
      AuditRevocations(RowsFor(user, order.revoked));
    }

    method ReplaceUserRoles(user: UserId, codes: set<RoleCode>) returns (ok: bool, order: RoleOrder)
      requires tables.Valid()
      modifies tables
      ensures tables.Valid() && Ran(old(tables.View()), tables.View(), Command.ReplaceUserRoles(user, codes, order), ok)
    {
      order := RoleOrder([], []);
      ok := user in tables.users && tables.users[user].deletedAt == None;
      if ok {
        order := ReplaceRolesWithAudit(user, codes);
      }
    }

    method AdminCreateUser(id: UserId, email: string, passwordHash: nat, isActive: bool, codes: set<RoleCode>)
      returns (ok: bool, order: RoleOrder)
      requires tables.Valid() && id !in tables.users
      modifies tables
      ensures tables.Valid()
      ensures Ran(old(tables.View()), tables.View(), AdminCreate(id, email, passwordHash, isActive, codes, order), ok)
    {
      order := RoleOrder([], []);
      ok := tables.CreateUser(id, email, Some(passwordHash), isActive);
      if ok {
        tables.CreateAuditLog(OtherEvent("USER_CREATED_BY_ADMIN"));
        order := ReplaceRolesWithAudit(id, codes);
      }
    }

    method AdminUpdateUser(user: UserId, changes: UserChanges, at: Time) returns (ok: bool, order: RoleOrder)
      requires tables.Valid()
      modifies tables
      ensures tables.Valid() && Ran(old(tables.View()), tables.View(), AdminUpdate(user, changes, order, at), ok)
    {
      order := RoleOrder([], []);
      ok := tables.UpdateUser(user, changes);
      if !ok {
        return;
      }
      if changes.roles.Some? {
        order := ReplaceRolesWithAudit(user, changes.roles.value);
      }
      if changes.passwordHash.Some? || changes.isActive == Some(false) {
        tables.RevokeSessionsForUser(user, at);
      }
      tables.CreateAuditLog(OtherEvent("USER_UPDATED_BY_ADMIN"));
    }

    /** One more role for a user, and rows for what was granted. */
    method AddRole(user: UserId, code: RoleCode) returns (granted: seq<RoleCode>)
      requires tables.Valid()
      modifies tables`roles, tables`audit
      ensures tables.Valid() && Lists(granted, {code} - RolesOf(old(tables.roles), user))
      ensures tables.View() == GrantTo(old(tables.View()), user, code, granted)
    {
      var existing := RolesOf(tables.roles, user);
      var order := tables.ReplaceUserRoles(user, existing + {code});
      assert existing + {code} - existing == {code} - existing;
      granted := order.granted;
      AuditGrants(user, granted);
    }

    method GrantRole(email: string, code: RoleCode) returns (ok: bool, granted: seq<RoleCode>)
      requires tables.Valid()
      modifies tables
      ensures tables.Valid() && Ran(old(tables.View()), tables.View(), Command.GrantRole(email, code, granted), ok)
    {
      granted := [];
      var user := tables.FindUserByEmail(email);
      ok := user.Some?;
      if ok {
        granted := AddRole(user.value, code);
      }
    }

    method SeedAdmin(newUser: UserId, email: string, passwordHash: nat, code: RoleCode)
      returns (ok: bool, granted: seq<RoleCode>)
      requires tables.Valid() && newUser !in tables.users
      modifies tables
      ensures tables.Valid()
      ensures Ran(old(tables.View()), tables.View(), Command.SeedAdmin(newUser, email, passwordHash, code, granted), ok)
    {
      granted := [];
      var user := tables.FindUserByEmail(email);
      if user == None {
        ok := tables.CreateUser(newUser, email, Some(passwordHash), true);
        user := Some(newUser);
      } else {
        ok := tables.UpdateUser(user.value, UserChanges(None, Some(passwordHash), Some(true), None));
      }
      if ok {
        granted := AddRole(user.value, code);
      }
    }

    method PruneUnknownRoles(known: set<RoleCode>) returns (ok: bool, rows: seq<RoleRow>)
      requires tables.Valid()
      modifies tables
      ensures tables.Valid() && Ran(old(tables.View()), tables.View(), PruneRoles(known, rows), ok)
    {
      rows := tables.ListUnknownRoleAssignments(known);
      ok := tables.DeleteUnknownRoleAssignments(known);
      if ok {
        AuditRevocations(rows);
      }
    }
  }
}
