/**
 The repositories as they run: each method reads the tables or updates some rows in place, and its contract ties
 the new tables to the old ones.  The unique indexes of the schema are what `Valid` says; an insert that would
 break one is refused.
 */
module AuthRepository {
  import opened Basics
  import opened SessionExpiry
  import opened AuthDatabase
  import opened AuthTransactions

  /** The unique index on session token hashes. */
  ghost predicate TokensUnique(sessions: map<SessionId, Session>) {
    forall a, b :: a in sessions && b in sessions && sessions[a].tokenHash == sessions[b].tokenHash ==> a == b
  }

  predicate Finds(s: Session, tokenHash: Digest, at: Time) {
    s.tokenHash == tokenHash && IsActive(s, at)
  }

  /** At most one active session has the token, so revoking that one revokes all. */
  lemma RevokingTheOne(db: Db, tokenHash: Digest, at: Time, id: SessionId)
    requires TokensUnique(db.sessions)
    requires id in db.sessions && Finds(db.sessions[id], tokenHash, at)
    ensures PutSession(db, id, Revoked(db.sessions[id], at)) == RevokeActiveByToken(db, tokenHash, at)
  {
    assert PutSession(db, id, Revoked(db.sessions[id], at)).sessions == RevokeActiveByToken(db, tokenHash, at).sessions;
  }

  lemma RevokingNone(db: Db, tokenHash: Digest, at: Time)
    requires forall id :: id in db.sessions ==> !Finds(db.sessions[id], tokenHash, at)
    ensures db == RevokeActiveByToken(db, tokenHash, at)
  {
    assert db.sessions == RevokeActiveByToken(db, tokenHash, at).sessions;
  }

  /** Roles of one user change by taking the revoked ones away and adding the granted ones. */
  lemma RemovedAndAdded(roles: set<RoleRow>, user: UserId, codes: set<RoleCode>,
                        granted: seq<RoleCode>, revoked: set<RoleCode>)
    requires Lists(granted, codes - RolesOf(roles, user)) && revoked == RolesOf(roles, user) - codes
    ensures Without(roles, user, revoked) + RoleRows(user, granted) == WithRoles(roles, user, codes)
  {
    var kept := Without(roles, user, revoked);
    forall row ensures row in kept + RoleRows(user, granted) <==> row in WithRoles(roles, user, codes) {
      if row.user == user {
        assert row in roles <==> row.code in RolesOf(roles, user) by {
          assert row == RoleRow(user, row.code);
        }
        assert row in RoleRows(user, granted) <==> row.code in granted;
        assert row in WithRoles(roles, user, codes) <==> row.code in codes;
      }
    }
  }

  function Without(roles: set<RoleRow>, user: UserId, codes: set<RoleCode>): set<RoleRow> {
    set row | row in roles && !(row.user == user && row.code in codes)
  }

  function RoleRows(user: UserId, codes: seq<RoleCode>): set<RoleRow> {
    set code | code in codes :: RoleRow(user, code)
  }

  class AuthTables {
    var users: map<UserId, User>
    var sessions: map<SessionId, Session>
    var identities: map<IdentityKey, UserId>
    var roles: set<RoleRow>
    var oidcStates: map<Digest, OidcState>
    var audit: seq<Audit>

    function View(): Db
      reads this
    {
      Db(users, sessions, identities, roles, oidcStates, audit)
    }

    ghost predicate Valid()
      reads this
    {
      EmailsUnique(View()) && TokensUnique(sessions)
    }

    constructor ()
      ensures Valid() && View() == EMPTY_DB
    {
      users, sessions, identities, roles, oidcStates, audit := map[], map[], map[], {}, map[], [];
    }

    // ----- users -----

    method FindUserByEmail(email: string) returns (found: Option<UserId>)
      requires Valid()
      ensures found == FindByEmail(View(), email)
    {
      if user: UserId :| user in users && HasEmail(View(), user, email) {
        found := Some(user);
      } else {
        found := None;
      }
    }

    method CreateUser(id: UserId, email: string, passwordHash: Option<nat>, isActive: bool) returns (ok: bool)
      requires Valid() && id !in users
      modifies this`users
      ensures Valid()
      ensures ok == AuthTransactions.CreateUser(old(View()), id, email, passwordHash, isActive).Some?
      ensures ok ==> View() == AuthTransactions.CreateUser(old(View()), id, email, passwordHash, isActive).value
      ensures !ok ==> View() == old(View())
    {
      var colliding := FindUserByEmail(email);
      ok := colliding == None;
      if ok {
        AddedEmailIsUnique(View(), id, User(email, passwordHash, isActive, None, None));
        users := users[id := User(email, passwordHash, isActive, None, None)];
      }
    }

    method RecordUserLogin(user: UserId, at: Time) returns (ok: bool)
      requires Valid()
      modifies this`users
      ensures Valid()
      ensures ok == Live(old(View()), user)
      ensures ok ==> View() == AuthTransactions.RecordUserLogin(old(View()), user, at).value
      ensures !ok ==> View() == old(View())
    {
      ok := user in users && users[user].deletedAt == None;
      if ok {
        ghost var before := View();
        users := users[user := users[user].(lastLoggedInAt := Some(Stored(at)))];
        SameAddressesAreUnique(before, View());
      }
    }

    method UpdateUser(user: UserId, changes: UserChanges) returns (ok: bool)
      requires Valid()
      modifies this`users
      ensures Valid()
      ensures ok == AuthTransactions.UpdateUser(old(View()), user, changes).Some?
      ensures ok ==> View() == AuthTransactions.UpdateUser(old(View()), user, changes).value
      ensures !ok ==> View() == old(View())
    {
      ok := user in users && users[user].deletedAt == None;
      if ok && changes.email.Some? {
        var holder := FindUserByEmail(changes.email.value);
        ok := holder == None || holder == Some(user);
      }
      if ok {
        ghost var before := View();
        var u := users[user];
        if changes.email.Some? {
          u := u.(email := changes.email.value);
        }
        if changes.passwordHash.Some? {
          u := u.(passwordHash := changes.passwordHash);
        }
        if changes.isActive.Some? {
          u := u.(isActive := changes.isActive.value);
        }
        assert HasEmail(before, user, users[user].email);
        assert changes.email.Some? && FindByEmail(before, u.email).Some? ==> HasEmail(before, user, u.email);
        ChangedEmailIsUnique(before, user, u);
        users := users[user := u];
      }
    }

    /** One row is marked and logged the first time; a user deleted before is left as it is. */
    method MarkUserDeleted(user: UserId, at: Time) returns (ok: bool)
      requires Valid()
      modifies this`users, this`audit
      ensures Valid()
      ensures ok == (user in old(users))
      ensures ok ==> View() == AuthTransactions.MarkUserDeleted(old(View()), user, at).value
      ensures !ok ==> View() == old(View())
    {
      ok := user in users;
      if ok && users[user].deletedAt == None {
        ghost var before := View();
        users := users[user := users[user].(deletedAt := Some(Stored(at)))];
        audit := audit + [UserMarkedDeleted(user)];
        SameAddressesAreUnique(before, View());
      }
    }

    // ----- identities -----

    method CreateAuthIdentity(key: IdentityKey, user: UserId)
      requires Valid() && key !in identities
      modifies this`identities
      ensures Valid() && View() == Link(old(View()), key, user)
    {
      ghost var before := View();
      identities := identities[key := user];
      SameAddressesAreUnique(before, View());
    }

    method DeleteAuthIdentitiesForUser(user: UserId)
      requires Valid()
      modifies this`identities
      ensures Valid() && View() == DeleteIdentitiesOf(old(View()), user)
    {
      ghost var before := View();
      identities := map key | key in identities && identities[key] != user :: identities[key];
      assert identities == DeleteIdentitiesOf(before, user).identities;
      SameAddressesAreUnique(before, View());
    }

    // ----- sessions -----

    method FindActiveSessionByTokenHash(tokenHash: Digest, at: Time) returns (found: Option<SessionId>)
      ensures found.Some? ==> found.value in sessions && Finds(sessions[found.value], tokenHash, at)
      ensures found == None ==> forall id :: id in sessions ==> !Finds(sessions[id], tokenHash, at)
    {
      if id: SessionId :| id in sessions && Finds(sessions[id], tokenHash, at) {
        found := Some(id);
      } else {
        found := None;
      }
    }

    method RevokeSession(id: SessionId, at: Time)
      requires Valid()
      modifies this`sessions
      ensures Valid()
      ensures View() == if id in old(sessions) then PutSession(old(View()), id, Revoked(old(sessions)[id], at))
                        else old(View())
    {
      ghost var before := View();
      if id in sessions {
        sessions := sessions[id := sessions[id].(revokedAt := Some(Stored(at)))];
      }
      SameAddressesAreUnique(before, View());
    }

    method RevokeSessionsForUser(user: UserId, at: Time)
      requires Valid()
      modifies this`sessions
      ensures Valid() && View() == RevokeSessionsOf(old(View()), user, at)
    {
      ghost var before := View();
      sessions := map id | id in sessions ::
                    if sessions[id].userId == user && sessions[id].revokedAt == None
                    then sessions[id].(revokedAt := Some(Stored(at))) else sessions[id];
      assert sessions == RevokeSessionsOf(before, user, at).sessions;
      SameAddressesAreUnique(before, View());
    }

    method TouchSession(id: SessionId, lastSeenAt: Time, expiresAt: Time) returns (ok: bool)
      requires Valid()
      modifies this`sessions
      ensures Valid() && ok == (id in old(sessions))
      ensures View() == if ok then PutSession(old(View()), id, old(sessions)[id].(times :=
                                 old(sessions)[id].times.(lastSeenAt := Stored(lastSeenAt), expiresAt := Stored(expiresAt))))
                        else old(View())
    {
      ghost var before := View();
      ok := id in sessions;
      if ok {
        var s := sessions[id];
        sessions := sessions[id := s.(times := s.times.(lastSeenAt := Stored(lastSeenAt), expiresAt := Stored(expiresAt)))];
      }
      SameAddressesAreUnique(before, View());
    }

    /** `replace_auth_session`: the browser's session, if it has an active one, is revoked and a new one issued. */
    method ReplaceAuthSession(settings: Settings, user: UserId, newSession: NewSession)
      requires Valid() && FreshToken(sessions, newSession.tokenHash)
      modifies this`sessions
      ensures Valid() && View() == AuthTransactions.ReplaceAuthSession(old(View()), settings, user, newSession)
    {
      ghost var before := View();
      if newSession.current.Some? {
        var existing := FindActiveSessionByTokenHash(newSession.current.value, newSession.issuedAt);
        if existing.Some? {
          RevokingTheOne(before, newSession.current.value, newSession.issuedAt, existing.value);
          RevokeSession(existing.value, newSession.issuedAt);
        } else {
          RevokingNone(before, newSession.current.value, newSession.issuedAt);
        }
      }
      var times := Issued(settings, newSession.issuedAt);
      sessions := sessions[newSession.id := Session(user, newSession.tokenHash, times, None, None)];
      SameAddressesAreUnique(before, View());
    }

    /** Both `record_oidc_login` and `record_oidc_reauth` put the provider's time on the session. */
    method RecordOidcTime(id: SessionId, authTime: Option<int>) returns (ok: bool)
      requires Valid()
      modifies this`sessions
      ensures Valid() && ok == (id in old(sessions))
      ensures View() == if ok then PutSession(old(View()), id, WithAuthTime(old(sessions)[id], authTime)) else old(View())
    {
      ghost var before := View();
      ok := id in sessions;
      if ok && authTime.Some? {
        sessions := sessions[id := sessions[id].(lastOidcAt := Some(Stored(authTime.value * SECOND)))];
      }
      SameAddressesAreUnique(before, View());
    }

    // ----- OIDC states -----

    method CreateOidcAuthorizationState(stateHash: Digest, state: OidcState)
      requires Valid() && stateHash !in oidcStates
      modifies this`oidcStates
      ensures Valid() && View() == old(View()).(oidcStates := old(oidcStates)[stateHash := state])
    {
      ghost var before := View();
      oidcStates := oidcStates[stateHash := state];
      SameAddressesAreUnique(before, View());
    }

    method ConsumeOidcAuthorizationState(stateHash: Digest, bindingHash: Digest, at: Time) returns (status: ConsumeStatus)
      requires Valid()
      modifies this`oidcStates
      ensures Valid() && status == ConsumeStatusOf(old(View()), stateHash, bindingHash, at)
      ensures View() == ConsumeTx(old(View()), stateHash, bindingHash, at)
      ensures status == StateMismatch <==> stateHash !in old(oidcStates)
      ensures stateHash in old(oidcStates) ==>
                var state := old(oidcStates)[stateHash];
                && (status == AlreadyConsumed <==> state.consumedAt.Some?)
                && (status == Expired <==> state.consumedAt == None && state.expiresAt <= at)
                && (status == BindingMismatch <==>
                      state.consumedAt == None && state.expiresAt > at && state.bindingHash != bindingHash)
      ensures oidcStates == if status == Consumed
                            then old(oidcStates)[stateHash := old(oidcStates)[stateHash].(consumedAt := Some(Stored(at)))]
                            else old(oidcStates)
    {
      ghost var before := View();
      if stateHash !in oidcStates {
        return StateMismatch;
      }
      var state := oidcStates[stateHash];
      if state.consumedAt != None {
        return AlreadyConsumed;
      }
      if state.expiresAt <= at {
        return Expired;
      }
      if state.bindingHash != bindingHash {
        return BindingMismatch;
      }
      oidcStates := oidcStates[stateHash := state.(consumedAt := Some(Stored(at)))];
      SameAddressesAreUnique(before, View());
      return Consumed;
    }

    // ----- roles and audit -----

    method CreateAuditLog(row: Audit)
      requires Valid()
      modifies this`audit
      ensures Valid() && View() == Log(old(View()), [row])
    {
      ghost var before := View();
      audit := audit + [row];
      SameAddressesAreUnique(before, View());
    }

    method DeleteRolesForUser(user: UserId)
      requires Valid()
      modifies this`roles
      ensures Valid() && View() == DeleteRolesOf(old(View()), user)
    {
      ghost var before := View();
      roles := set row | row in roles && row.user != user;
      SameAddressesAreUnique(before, View());
    }

    method InsertRoles(user: UserId, codes: seq<RoleCode>)
      modifies this`roles
      ensures roles == old(roles) + RoleRows(user, codes)
    {
      for i := 0 to |codes|
        invariant roles == old(roles) + RoleRows(user, codes[..i])
      {
        assert codes[..i + 1] == codes[..i] + [codes[i]];
        roles := roles + {RoleRow(user, codes[i])};
      }
      assert codes[..|codes|] == codes;
    }

    /** The revoked rows go in one statement, the granted ones are inserted one by one; both are returned. */
    method ReplaceUserRoles(user: UserId, codes: set<RoleCode>) returns (order: RoleOrder)
      requires Valid()
      modifies this`roles
      ensures Valid() && OrderFits(old(View()), user, codes, order)
      ensures View() == old(View()).(roles := WithRoles(old(roles), user, codes))
    {
      ghost var before := View();
      var existing := RolesOf(roles, user);
      var revoked := Listed(existing - codes);
      var granted := Listed(codes - existing);
      RemovedAndAdded(roles, user, codes, granted, existing - codes);
      roles := Without(roles, user, existing - codes);
      InsertRoles(user, granted);
      SameAddressesAreUnique(before, View());
      order := RoleOrder(granted, revoked);
    }

    method ListUnknownRoleAssignments(known: set<RoleCode>) returns (rows: seq<RoleRow>)
      ensures Lists(rows, if known == {} then roles else UnknownRows(roles, known))
    {
      rows := Listed(if known == {} then roles else UnknownRows(roles, known));
    }

    method DeleteUnknownRoleAssignments(known: set<RoleCode>) returns (ok: bool)
      requires Valid()
      modifies this`roles
      ensures Valid() && ok == (known != {})
      ensures View() == if ok then old(View()).(roles := old(roles) - UnknownRows(old(roles), known)) else old(View())
    {
      ghost var before := View();
      ok := known != {};
      if ok {
        roles := set row | row in roles && row.code in known;
        assert roles == before.roles - UnknownRows(before.roles, known);
      }
      SameAddressesAreUnique(before, View());
    }

    /** Leaving a transaction by an exception brings back the tables as they were when it began. */
    method Rollback(saved: Db)
      requires EmailsUnique(saved) && TokensUnique(saved.sessions)
      modifies this
      ensures Valid() && View() == saved
    {
      users, sessions, identities := saved.users, saved.sessions, saved.identities;
      roles, oidcStates, audit := saved.roles, saved.oidcStates, saved.audit;
    }
  }

  ghost predicate FreshToken(sessions: map<SessionId, Session>, tokenHash: Digest) {
    forall id :: id in sessions ==> sessions[id].tokenHash != tokenHash
  }

  /** The rows of a query, each once. */
  method Listed<T(==,!new)>(members: set<T>) returns (order: seq<T>)
    ensures Lists(order, members)
  {
    order := [];
    var rest := members;
    while rest != {}
      invariant rest <= members && Lists(order, members - rest)
    {
      var x :| x in rest;
      rest := rest - {x};
      order := order + [x];
    }
  }

  // ----- the unique index on addresses -----

  lemma SameAddressesAreUnique(before: Db, after: Db)
    requires EmailsUnique(before)
    requires forall user, email :: HasEmail(after, user, email) ==> HasEmail(before, user, email)
    ensures EmailsUnique(after)
  {
    forall a, b, email | HasEmail(after, a, email) && HasEmail(after, b, email) ensures a == b {
      assert HasEmail(before, a, email) && HasEmail(before, b, email);
    }
  }

  lemma AddedEmailIsUnique(db: Db, id: UserId, user: User)
    requires EmailsUnique(db) && id !in db.users && FindByEmail(db, user.email) == None
    ensures EmailsUnique(PutUser(db, id, user))
  {
    ChangedEmailIsUnique(db, id, user);
  }

  lemma ChangedEmailIsUnique(db: Db, id: UserId, user: User)
    requires EmailsUnique(db)
    requires forall other :: HasEmail(db, other, user.email) ==> other == id
    ensures EmailsUnique(PutUser(db, id, user))
  {
    var after := PutUser(db, id, user);
    forall a, b, email | HasEmail(after, a, email) && HasEmail(after, b, email) ensures a == b {
      assert a != id ==> HasEmail(db, a, email);
      assert b != id ==> HasEmail(db, b, email);
    }
  }
}
