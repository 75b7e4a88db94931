/**
 What each transaction promises to whoever calls it, told by rows and fields of the tables before and after: for whom
 it goes through, what it changes, and what it leaves alone.
 */
module AuthPromises {
  import opened Basics
  import opened SessionExpiry
  import opened AuthDatabase
  import opened AuthTransactions

  // ----- requests -----

  /** The session is unrevoked and unexpired, and its user is there, undeleted and active. */
  predicate MayEnter(db: Db, id: SessionId, at: Time) {
    && id in db.sessions && db.sessions[id].revokedAt == None && db.sessions[id].times.expiresAt > Stored(at)
    && db.sessions[id].userId in db.users
    && db.users[db.sessions[id].userId].deletedAt == None && db.users[db.sessions[id].userId].isActive
  }

  /** A request is let in exactly then. */
  lemma RequestGoesThrough(db: Db, settings: Settings, id: SessionId, at: Time)
    ensures AuthenticateTx(db, settings, id, at).1 <==> MayEnter(db, id, at)
  {
  }

  /** It moves the times of its own session and nothing else. */
  lemma RequestTouchesItsSession(db: Db, settings: Settings, id: SessionId, at: Time)
    requires AuthenticateTx(db, settings, id, at).1
    ensures var after := AuthenticateTx(db, settings, id, at).0;
            && after.(sessions := db.sessions) == db && after.sessions.Keys == db.sessions.Keys
            && after.sessions[id].(times := db.sessions[id].times) == db.sessions[id]
            && (forall k :: k in db.sessions && k != id ==> after.sessions[k] == db.sessions[k])
  {
  }

  /** A session found active for a user that may not sign in ends with all sessions of that user, and no others. */
  lemma RefusedUserIsSignedOut(db: Db, settings: Settings, id: SessionId, at: Time)
    requires id in db.sessions && db.sessions[id].revokedAt == None && db.sessions[id].times.expiresAt > Stored(at)
    requires db.sessions[id].userId in db.users
    requires db.users[db.sessions[id].userId].deletedAt.Some? || !db.users[db.sessions[id].userId].isActive
    ensures SignedOut(db, AuthenticateTx(db, settings, id, at).0, db.sessions[id].userId)
    ensures AuthenticateTx(db, settings, id, at).0.users == db.users
  {
  }

  /** No session of the user is unrevoked any more; all others are as they were. */
  ghost predicate SignedOut(db: Db, after: Db, user: UserId) {
    && after.sessions.Keys == db.sessions.Keys
    && (forall k :: k in db.sessions && db.sessions[k].userId == user ==> after.sessions[k].revokedAt.Some?)
    && (forall k :: k in db.sessions && db.sessions[k].userId != user ==> after.sessions[k] == db.sessions[k])
  }

  // ----- sign-in and sign-out -----

  /**
   The new session is its user's, unrevoked, and expires at the earlier limit; of the others exactly the browser's
   active one is revoked.
   */
  lemma SessionIsReplaced(db: Db, settings: Settings, user: UserId, n: NewSession, id: SessionId)
    requires id in db.sessions && id != n.id
    ensures var after := ReplaceAuthSession(db, settings, user, n);
            && after.(sessions := db.sessions) == db && after.sessions.Keys == db.sessions.Keys + {n.id}
            && after.sessions[n.id].userId == user && after.sessions[n.id].tokenHash == n.tokenHash
            && after.sessions[n.id].revokedAt == None && after.sessions[n.id].lastOidcAt == None
            && after.sessions[n.id].times.issuedAt == after.sessions[n.id].times.lastSeenAt == Stored(n.issuedAt)
            && after.sessions[n.id].times.expiresAt
               == Min(Stored(n.issuedAt) + settings.absoluteTtl * SECOND,
                      Stored(n.issuedAt) + settings.idleTtl * SECOND)
            && after.sessions[id].(revokedAt := db.sessions[id].revokedAt) == db.sessions[id]
            && after.sessions[id].revokedAt
               == if n.current == Some(db.sessions[id].tokenHash) && db.sessions[id].revokedAt == None
                     && db.sessions[id].times.expiresAt > Stored(n.issuedAt)
                  then Some(Stored(n.issuedAt)) else db.sessions[id].revokedAt
  {
    StoredExpiry(settings, n.issuedAt, n.issuedAt);
  }

  /** A login goes through unless its user is gone or deleted by now; its session lets an active user in till it expires. */
  lemma LoginLetsIn(db: Db, settings: Settings, user: UserId, n: NewSession, at: Time, later: Time)
    ensures var tx := LoginTx(db, settings, user, n, at);
            && (tx.Some? <==> user in db.users && db.users[user].deletedAt == None)
            && (tx.Some? ==>
                  && tx.value.users == db.users[user := db.users[user].(lastLoggedInAt := Some(Stored(at)))]
                  && (AuthenticateTx(tx.value, settings, n.id, later).1 <==>
                        && db.users[user].isActive
                        && Stored(later) < Stored(n.issuedAt) + settings.absoluteTtl * SECOND
                        && Stored(later) < Stored(n.issuedAt) + settings.idleTtl * SECOND))
  {
    StoredExpiry(settings, n.issuedAt, n.issuedAt);
  }

  /** A registration goes through unless a live user has the address; the new user has what was given and is active. */
  lemma RegistrationCreates(db: Db, settings: Settings, id: UserId, email: string, passwordHash: nat, n: NewSession,
                            at: Time)
    requires id !in db.users
    ensures var tx := RegisterTx(db, settings, id, email, passwordHash, n, at);
            && (tx.Some? <==> forall user :: !HasEmail(db, user, email))
            && (tx.Some? ==>
                  && tx.value.users == db.users[id := User(email, Some(passwordHash), true, None, Some(Stored(at)))]
                  && tx.value.identities == db.identities && tx.value.roles == db.roles
                  && n.id in tx.value.sessions && tx.value.sessions[n.id].userId == id)
  {
  }

  /** After a sign-out the session never lets a request in; no other session changes. */
  lemma LogoutShutsOut(db: Db, settings: Settings, id: SessionId, at: Time, later: Time)
    ensures var after := LogoutTx(db, id, at);
            && !AuthenticateTx(after, settings, id, later).1
            && (id in db.sessions ==> after.sessions[id].revokedAt == Some(Stored(at)))
            && after.sessions.Keys == db.sessions.Keys
            && (forall k :: k in db.sessions && k != id ==> after.sessions[k] == db.sessions[k])
            && after.users == db.users && after.identities == db.identities && after.roles == db.roles
  {
  }

  // ----- OIDC sign-in -----

  /**
   A known identity signs in if and only if its user is there, undeleted and active.  An unknown one does if and only if
   the provider is trusted with addresses and vouches for one, and either a live user has that address, which must be
   active and the provider link automatically, or none has it and the provider provisions.
   */
  lemma SignInGoesThrough(db: Db, provider: Provider, claims: Claims, newUser: UserId)
    requires EmailsUnique(db)
    ensures var key := IdentityKey(provider.id, claims.subject);
            ResolveLogin(db, provider, claims, newUser).Some? <==>
              if key in db.identities then
                && db.identities[key] in db.users
                && db.users[db.identities[key]].deletedAt == None && db.users[db.identities[key]].isActive
              else
                && provider.trustVerifiedEmail && claims.emailVerified
                && claims.email.Some? && claims.email.value != ""
                && (forall user :: HasEmail(db, user, claims.email.value) ==>
                      db.users[user].isActive && provider.linkMode == Auto)
                && ((forall user :: !HasEmail(db, user, claims.email.value)) ==> provider.autoProvision)
  {
  }

  /** A known identity changes nothing.  A new one is linked to a live, active user with the very address vouched for. */
  lemma SignInLinks(db: Db, provider: Provider, claims: Claims, newUser: UserId)
    requires EmailsUnique(db) && newUser !in db.users
    requires ResolveLogin(db, provider, claims, newUser).Some?
    ensures var key := IdentityKey(provider.id, claims.subject);
            var r := ResolveLogin(db, provider, claims, newUser).value;
            && key in r.db.identities && r.db.identities[key] == r.user
            && Live(r.db, r.user) && r.db.users[r.user].isActive
            && (key in db.identities ==> r.db == db)
            && (key !in db.identities ==>
                  && r.db.users[r.user].email == claims.email.value
                  && r.db.identities == db.identities[key := r.user]
                  && (r.db.users == db.users
                      || r.db.users == db.users[newUser := User(claims.email.value, None, true, None, None)])
                  && (r.user in db.users <==> r.db.users == db.users)
                  && r.db.sessions == db.sessions && r.db.roles == db.roles)
  {
  }

  /** A recorded authentication time is the provider's, on that session alone. */
  lemma ReauthRecords(db: Db, id: SessionId, authTime: int)
    ensures var tx := ReauthTx(db, id, authTime);
            && (tx.Some? <==> id in db.sessions)
            && (tx.Some? ==>
                  && tx.value.sessions == db.sessions[id := db.sessions[id].(lastOidcAt := Some(authTime * SECOND))]
                  && tx.value.users == db.users && tx.value.identities == db.identities && tx.value.roles == db.roles)
  {
  }

  // ----- deletion -----

  /** The deleted user is left with nothing; nobody else loses a session, an identity, a role or a row. */
  lemma DeletionTakesItsOwn(db: Db, user: UserId, at: Time, rows: seq<Audit>)
    ensures var tx := DeleteUserTx(db, user, at, rows);
            && (tx.Some? <==> user in db.users)
            && (tx.Some? ==>
                  && tx.value.users[user].deletedAt
                     == (if db.users[user].deletedAt.Some? then db.users[user].deletedAt else Some(Stored(at)))
                  && SignedOut(db, tx.value, user)
                  && tx.value.users.Keys == db.users.Keys
                  && (forall u :: u in db.users && u != user ==> tx.value.users[u] == db.users[u])
                  && (forall key :: key in tx.value.identities <==> key in db.identities && db.identities[key] != user)
                  && (forall key :: key in tx.value.identities ==> tx.value.identities[key] == db.identities[key])
                  && (forall row :: row in tx.value.roles <==> row in db.roles && row.user != user))
  {
  }

  // ----- administration -----

  /** An update is refused for a user that is gone, and for another live user's address; only what is given changes. */
  lemma UpdateChangesWhatIsGiven(db: Db, user: UserId, changes: UserChanges, order: RoleOrder, at: Time)
    requires EmailsUnique(db)
    ensures var tx := AdminUpdateTx(db, user, changes, order, at);
            && (tx.Some? <==>
                  && user in db.users && db.users[user].deletedAt == None
                  && (changes.email.Some? ==> forall u :: HasEmail(db, u, changes.email.value) ==> u == user))
            && (tx.Some? ==>
                  var before, after := db.users[user], tx.value.users[user];
                  && after.email == (if changes.email.Some? then changes.email.value else before.email)
                  && after.passwordHash
                     == (if changes.passwordHash.Some? then changes.passwordHash else before.passwordHash)
                  && after.isActive == (if changes.isActive.Some? then changes.isActive.value else before.isActive)
                  && after.deletedAt == None && after.lastLoggedInAt == before.lastLoggedInAt
                  && tx.value.users == db.users[user := after] && tx.value.identities == db.identities)
  {
  }

  /** A new password or a deactivation ends the user's sessions; any other update ends none. */
  lemma UpdateSignsOut(db: Db, user: UserId, changes: UserChanges, order: RoleOrder, at: Time)
    requires AdminUpdateTx(db, user, changes, order, at).Some?
    ensures var after := AdminUpdateTx(db, user, changes, order, at).value;
            if changes.passwordHash.Some? || changes.isActive == Some(false) then SignedOut(db, after, user)
            else after.sessions == db.sessions
  {
  }

  /** Only roles that are given change, to exactly those. */
  lemma UpdateGivesRoles(db: Db, user: UserId, changes: UserChanges, order: RoleOrder, at: Time, row: RoleRow)
    requires AdminUpdateTx(db, user, changes, order, at).Some?
    ensures row in AdminUpdateTx(db, user, changes, order, at).value.roles <==>
              if row.user == user && changes.roles.Some? then row.code in changes.roles.value else row in db.roles
  {
  }

  /** A created user has what was given, a role exactly for each code, and no session. */
  lemma AdminCreates(db: Db, id: UserId, email: string, passwordHash: nat, isActive: bool,
                     codes: set<RoleCode>, order: RoleOrder, row: RoleRow)
    requires id !in db.users
    ensures var tx := AdminCreateTx(db, id, email, passwordHash, isActive, codes, order);
            && (tx.Some? <==> forall user :: !HasEmail(db, user, email))
            && (tx.Some? ==>
                  && tx.value.users == db.users[id := User(email, Some(passwordHash), isActive, None, None)]
                  && (row in tx.value.roles <==> if row.user == id then row.code in codes else row in db.roles)
                  && tx.value.sessions == db.sessions && tx.value.identities == db.identities)
  {
  }

  /** The seeded administrator is live and active, has the address, the password and the role, and keeps the others. */
  lemma SeedMakesAdministrator(db: Db, newUser: UserId, email: string, passwordHash: nat, code: RoleCode,
                               granted: seq<RoleCode>) returns (admin: UserId)
    requires EmailsUnique(db) && newUser !in db.users
    ensures HasEmail(db, admin, email) || admin == newUser
    ensures var tx := SeedAdminTx(db, newUser, email, passwordHash, code, granted);
            && tx.Some? && HasEmail(tx.value, admin, email)
            && tx.value.users[admin].isActive && tx.value.users[admin].passwordHash == Some(passwordHash)
            && (forall u :: u in db.users && u != admin ==> u in tx.value.users && tx.value.users[u] == db.users[u])
            && (forall row :: row in tx.value.roles <==> row in db.roles || row == RoleRow(admin, code))
            && tx.value.sessions == db.sessions
  {
    var found := FindByEmail(db, email);
    admin := if found.Some? then found.value else newUser;
    var tx := SeedAdminTx(db, newUser, email, passwordHash, code, granted);
    assert tx.Some? && HasEmail(tx.value, admin, email);
    forall row ensures row in tx.value.roles <==> row in db.roles || row == RoleRow(admin, code) {
      assert row.user == admin ==> (row.code in RolesOf(db.roles, admin) <==> RoleRow(admin, row.code) in db.roles);
    }
  }

  /** A grant adds one role to the live user with the address, if there is one, and takes none away. */
  lemma GrantAdds(db: Db, user: UserId, email: string, code: RoleCode, granted: seq<RoleCode>, row: RoleRow)
    requires EmailsUnique(db)
    ensures GrantRoleTx(db, email, code, granted) == None <==> forall u :: !HasEmail(db, u, email)
    ensures HasEmail(db, user, email) ==>
              var tx := GrantRoleTx(db, email, code, granted);
              && tx.Some? && (row in tx.value.roles <==> row in db.roles || row == RoleRow(user, code))
              && tx.value.users == db.users && tx.value.sessions == db.sessions
  {
    assert row.user == user ==> (row.code in RolesOf(db.roles, user) <==> RoleRow(user, row.code) in db.roles);
  }

  /** A live user's roles become exactly those given; nobody else's change. */
  lemma RolesAreReplaced(db: Db, user: UserId, codes: set<RoleCode>, order: RoleOrder, row: RoleRow)
    ensures var tx := ReplaceUserRolesTx(db, user, codes, order);
            && (tx.Some? <==> user in db.users && db.users[user].deletedAt == None)
            && (tx.Some? ==>
                  && (row in tx.value.roles <==> if row.user == user then row.code in codes else row in db.roles)
                  && tx.value.users == db.users && tx.value.sessions == db.sessions)
  {
  }

  // ----- pruning -----

  /** A session goes only after its expiry, so no pruning before `now` ends a session that is active then. */
  lemma PruningSparesActive(db: Db, before: Time, now: Time, id: SessionId)
    requires id in db.sessions
    ensures id in PruneSessions(db, before).sessions <==> db.sessions[id].times.expiresAt >= before
    ensures id in PruneSessions(db, before).sessions ==> PruneSessions(db, before).sessions[id] == db.sessions[id]
    ensures before <= now && IsActive(db.sessions[id], now) && Stored(before) == before ==>
              id in PruneSessions(db, before).sessions
  {
    if before <= now {
      StoredMonotone(before, now);
    }
  }

  /** A state goes only when it expired or was consumed before the given time. */
  lemma PruningSparesPending(db: Db, before: Time, h: Digest)
    requires h in db.oidcStates
    ensures var state := db.oidcStates[h];
            h in PruneStates(db, before).oidcStates <==>
              state.expiresAt >= before && (state.consumedAt.Some? ==> state.consumedAt.value >= before)
    ensures h in PruneStates(db, before).oidcStates ==> PruneStates(db, before).oidcStates[h] == db.oidcStates[h]
  {
  }

  /** Exactly the roles with a known code stay. */
  lemma PruningKeepsKnownRoles(db: Db, known: set<RoleCode>, order: seq<RoleRow>, row: RoleRow)
    ensures PruneRolesTx(db, known, order) == None <==> known == {}
    ensures known != {} ==>
              (row in PruneRolesTx(db, known, order).value.roles <==> row in db.roles && row.code in known)
  {
  }
}
