/**
 The transactions of the use cases and of the command line, each as one step from table values to table values.
 `None` is a transaction that raised and was rolled back.  What a request looked up before its transaction
 (a user at login, a session at logout) is a parameter and may be stale.
 */
module AuthTransactions {
  import opened Basics
  import opened SessionExpiry
  import opened AuthDatabase

  // ----- sessions -----

  /** `record_user_login`: refused for a user that is missing or deleted by now. */
  function RecordUserLogin(db: Db, user: UserId, at: Time): Option<Db> {
    if Live(db, user) then Some(PutUser(db, user, db.users[user].(lastLoggedInAt := Some(Stored(at))))) else None
  }

  /** A new session to issue: its id and token are fresh. */
  datatype NewSession = NewSession(id: SessionId, tokenHash: Digest, current: Option<Digest>, issuedAt: Time)

  function SessionOf(settings: Settings, user: UserId, newSession: NewSession): Session {
    Session(user, newSession.tokenHash, Issued(settings, newSession.issuedAt), None, None)
  }

  function ReplaceAuthSession(db: Db, settings: Settings, user: UserId, newSession: NewSession): Db {
    var revoked := if newSession.current == None then db
                   else RevokeActiveByToken(db, newSession.current.value, newSession.issuedAt);
    PutSession(revoked, newSession.id, SessionOf(settings, user, newSession))
  }

  function LoginTx(db: Db, settings: Settings, user: UserId, newSession: NewSession, at: Time): Option<Db> {
    var recorded := RecordUserLogin(db, user, at);
    if recorded == None then None
    else Some(Log(ReplaceAuthSession(recorded.value, settings, user, newSession), [OtherEvent("LOGIN_SUCCESS")]))
  }

  /** The unique index on the address of users that are not deleted refuses a second one. */
  ghost function CreateUser(db: Db, id: UserId, email: string, passwordHash: Option<nat>, isActive: bool): Option<Db> {
    if FindByEmail(db, email).Some? then None
    else Some(PutUser(db, id, User(email, passwordHash, isActive, None, None)))
  }

  ghost function RegisterTx(db: Db, settings: Settings, id: UserId, email: string, passwordHash: nat,
                            newSession: NewSession, at: Time): Option<Db> {
    var created := CreateUser(db, id, email, Some(passwordHash), true);
    if created == None then None
    else
      var recorded := RecordUserLogin(created.value, id, at);
      if recorded == None then None
      else Some(Log(ReplaceAuthSession(recorded.value, settings, id, newSession), [OtherEvent("REGISTER_SUCCESS")]))
  }

  /** `authenticate_session` on the session a token named: its new tables, and whether a context is returned. */
  function AuthenticateTx(db: Db, settings: Settings, id: SessionId, at: Time): (Db, bool) {
    if id !in db.sessions || !IsActive(db.sessions[id], at) then (db, false)
    else
      var s := db.sessions[id];
      if s.userId !in db.users then
        (Log(PutSession(db, id, Revoked(s, at)), [OtherEvent("SESSION_REJECTED")]), false)
      else if !Live(db, s.userId) then
        (Log(RevokeSessionsOf(db, s.userId, at), [OtherEvent("SESSION_REVOKED_DELETED_USER")]), false)
      else if !db.users[s.userId].isActive then
        (Log(RevokeSessionsOf(db, s.userId, at), [OtherEvent("SESSION_REVOKED_INACTIVE_USER")]), false)
      else (PutSession(db, id, s.(times := AfterRequest(settings, s.times, at))), true)
  }

  function LogoutTx(db: Db, id: SessionId, at: Time): Db {
    Log(if id in db.sessions then PutSession(db, id, Revoked(db.sessions[id], at)) else db, [OtherEvent("LOGOUT")])
  }

  // ----- OIDC sign-in -----

  datatype LinkMode = Auto | Manual | Disabled

  datatype Provider = Provider(id: string, trustVerifiedEmail: bool, autoProvision: bool, linkMode: LinkMode)

  /** Claims of an ID token; the address is normalized, times are whole seconds. */
  datatype Claims = Claims(subject: string, email: Option<string>, emailVerified: bool, nonce: nat,
                           issuedAt: int, expiresAt: int, authTime: Option<int>)

  /** The checks of a token's nonce and times; only a reauthentication demands an authentication time. */
  predicate TokenAccepted(claims: Claims, nonceHash: Digest, requireAuthTime: bool, leeway: int, now: Time) {
    && HashOf(claims.nonce) == nonceHash
    && claims.expiresAt * SECOND > now && claims.issuedAt * SECOND <= now + leeway * SECOND
    && (requireAuthTime ==> claims.authTime.Some? && claims.authTime.value * SECOND <= now + leeway * SECOND)
  }

  function TrustedVerifiedEmail(provider: Provider, claims: Claims): Option<string> {
    if !provider.trustVerifiedEmail || !claims.emailVerified || claims.email == None || claims.email.value == ""
    then None else claims.email
  }

  /** A sign-in's tables and user, and the audit event of what was set up for it, if anything was. */
  datatype Resolved = Resolved(db: Db, user: UserId, setup: Option<string>)

  function WithSetupAudit(db: Db, setup: Option<string>): Db {
    if setup.Some? then Log(db, [OtherEvent(setup.value)]) else db
  }

  ghost function ResolveLogin(db: Db, provider: Provider, claims: Claims, newUser: UserId): Option<Resolved> {
    var key := IdentityKey(provider.id, claims.subject);
    if key in db.identities then
      var user := db.identities[key];
      if Live(db, user) && db.users[user].isActive then Some(Resolved(db, user, None)) else None
    else
      var email := TrustedVerifiedEmail(provider, claims);
      if email == None then None
      else
        var found := FindByEmail(db, email.value);
        if found.Some? && db.users[found.value].isActive then
          if provider.linkMode != Auto then None
          else Some(Resolved(Link(db, key, found.value), found.value, Some("OIDC_IDENTITY_LINKED")))
        else if found.Some? || !(provider.trustVerifiedEmail && provider.autoProvision) then None
        else
          var created := CreateUser(db, newUser, email.value, None, true);
          if created == None then None
          else Some(Resolved(Link(created.value, key, newUser), newUser, Some("OIDC_USER_PROVISIONED")))
  }

  /** `record_oidc_login` keeps the provider's authentication time on the new session. */
  function WithAuthTime(session: Session, authTime: Option<int>): Session {
    if authTime.Some? then session.(lastOidcAt := Some(Stored(authTime.value * SECOND))) else session
  }

  ghost function OidcLoginTx(db: Db, settings: Settings, provider: Provider, claims: Claims, newUser: UserId,
                             newSession: NewSession, at: Time): Option<Resolved> {
    var resolved := ResolveLogin(db, provider, claims, newUser);
    if resolved == None then None
    else
      var recorded := RecordUserLogin(resolved.value.db, resolved.value.user, at);
      if recorded == None then None
      else
        var issued := ReplaceAuthSession(recorded.value, settings, resolved.value.user, newSession);
        var session := WithAuthTime(issued.sessions[newSession.id], claims.authTime);
        var audited := WithSetupAudit(PutSession(issued, newSession.id, session), resolved.value.setup);
        Some(Resolved(Log(audited, [OtherEvent("OIDC_LOGIN_SUCCESS")]), resolved.value.user, resolved.value.setup))
  }

  /** `record_oidc_reauth`: refused when the session was pruned meanwhile. */
  function ReauthTx(db: Db, id: SessionId, authTime: int): Option<Db> {
    if id !in db.sessions then None
    else Some(Log(PutSession(db, id, WithAuthTime(db.sessions[id], Some(authTime))), [OtherEvent("OIDC_REAUTH_SUCCESS")]))
  }

  // ----- deletion -----

  /** `mark_user_deleted`: once, with one audit row; again, without any. */
  function MarkUserDeleted(db: Db, user: UserId, at: Time): Option<Db> {
    if user !in db.users then None
    else if !Live(db, user) then Some(db)
    else Some(Log(PutUser(db, user, db.users[user].(deletedAt := Some(Stored(at)))), [UserMarkedDeleted(user)]))
  }

  /** The deletion of an account, by its owner or by an administrator. */
  function DeleteUserTx(db: Db, user: UserId, at: Time, rows: seq<Audit>): Option<Db> {
    var marked := MarkUserDeleted(DeleteIdentitiesOf(DeleteRolesOf(db, user), user), user, at);
    if marked == None then None else Some(Log(RevokeSessionsOf(marked.value, user, at), rows))
  }

  // ----- roles -----

  /** The orders in which a role change lists what it grants and what it revokes. */
  datatype RoleOrder = RoleOrder(granted: seq<RoleCode>, revoked: seq<RoleCode>)

  ghost predicate OrderFits(db: Db, user: UserId, codes: set<RoleCode>, order: RoleOrder) {
    && Lists(order.granted, codes - RolesOf(db.roles, user))
    && Lists(order.revoked, RolesOf(db.roles, user) - codes)
  }

  /** `replace_user_roles` and the audit rows its callers write for what it granted and revoked. */
  function ReplaceRolesWithAudit(db: Db, user: UserId, codes: set<RoleCode>, order: RoleOrder): Db {
    Log(Log(db.(roles := WithRoles(db.roles, user, codes)), Grants(user, order.granted)),
        Revocations(RowsFor(user, order.revoked)))
  }

  function ReplaceUserRolesTx(db: Db, user: UserId, codes: set<RoleCode>, order: RoleOrder): Option<Db> {
    if Live(db, user) then Some(ReplaceRolesWithAudit(db, user, codes, order)) else None
  }

  ghost function AdminCreateTx(db: Db, id: UserId, email: string, passwordHash: nat, isActive: bool,
                               codes: set<RoleCode>, order: RoleOrder): Option<Db> {
    var created := CreateUser(db, id, email, Some(passwordHash), isActive);
    if created == None then None
    else Some(ReplaceRolesWithAudit(Log(created.value, [OtherEvent("USER_CREATED_BY_ADMIN")]), id, codes, order))
  }

  /** The fields an administrator's update contains. */
  datatype UserChanges = UserChanges(email: Option<string>, passwordHash: Option<nat>, isActive: Option<bool>,
                                     roles: Option<set<RoleCode>>)

  ghost function UpdateUser(db: Db, user: UserId, changes: UserChanges): Option<Db> {
    if !Live(db, user) then None
    else if changes.email.Some? && FindByEmail(db, changes.email.value).Some?
            && FindByEmail(db, changes.email.value).value != user then None
    else
      var u := db.users[user];
      Some(PutUser(db, user, u.(email := if changes.email.Some? then changes.email.value else u.email,
                                passwordHash := if changes.passwordHash.Some? then changes.passwordHash else u.passwordHash,
                                isActive := if changes.isActive.Some? then changes.isActive.value else u.isActive)))
  }

  ghost function AdminUpdateTx(db: Db, user: UserId, changes: UserChanges, order: RoleOrder, at: Time): Option<Db> {
    var updated := UpdateUser(db, user, changes);
    if updated == None then None
    else
      var roled := if changes.roles.Some? then ReplaceRolesWithAudit(updated.value, user, changes.roles.value, order)
                   else updated.value;
      var revoked := if changes.passwordHash.Some? || changes.isActive == Some(false)
                     then RevokeSessionsOf(roled, user, at) else roled;
      Some(Log(revoked, [OtherEvent("USER_UPDATED_BY_ADMIN")]))
  }

  /** The command-line grant: one more role, and audit rows for what was granted only. */
  ghost function GrantRoleTx(db: Db, email: string, code: RoleCode, granted: seq<RoleCode>): Option<Db> {
    var found := FindByEmail(db, email);
    if found == None then None else Some(GrantTo(db, found.value, code, granted))
  }

  function GrantTo(db: Db, user: UserId, code: RoleCode, granted: seq<RoleCode>): Db {
    Log(db.(roles := WithRoles(db.roles, user, RolesOf(db.roles, user) + {code})), Grants(user, granted))
  }

  /** The seeded administrator: created, or given its password and activity back, and the admin role. */
  ghost function SeedAdminTx(db: Db, newUser: UserId, email: string, passwordHash: nat, code: RoleCode,
                             granted: seq<RoleCode>): Option<Db> {
    var found := FindByEmail(db, email);
    var put := if found.Some? then UpdateUser(db, found.value, UserChanges(None, Some(passwordHash), Some(true), None))
               else CreateUser(db, newUser, email, Some(passwordHash), true);
    if put == None then None
    else Some(GrantTo(put.value, if found.Some? then found.value else newUser, code, granted))
  }

  function UnknownRows(roles: set<RoleRow>, known: set<RoleCode>): set<RoleRow> {
    set row | row in roles && row.code !in known
  }

  /** The command-line prune: every row with an unknown code, with one audit row each; no known code is an error. */
  function PruneRolesTx(db: Db, known: set<RoleCode>, order: seq<RoleRow>): Option<Db> {
    if known == {} then None
    else Some(Log(db.(roles := db.roles - UnknownRows(db.roles, known)), Revocations(order)))
  }

  // ----- OIDC states -----

  datatype ConsumeStatus = Consumed | StateMismatch | AlreadyConsumed | Expired | BindingMismatch

  function ConsumeStatusOf(db: Db, stateHash: Digest, bindingHash: Digest, at: Time): ConsumeStatus {
    if stateHash !in db.oidcStates then StateMismatch
    else
      var s := db.oidcStates[stateHash];
      if s.consumedAt.Some? then AlreadyConsumed
      else if s.expiresAt <= at then Expired
      else if s.bindingHash != bindingHash then BindingMismatch
      else Consumed
  }

  function ConsumeTx(db: Db, stateHash: Digest, bindingHash: Digest, at: Time): Db {
    if ConsumeStatusOf(db, stateHash, bindingHash, at) != Consumed then db
    else db.(oidcStates := db.oidcStates[stateHash := db.oidcStates[stateHash].(consumedAt := Some(Stored(at)))])
  }

  function PruneStates(db: Db, before: Time): Db {
    db.(oidcStates := map h | h in db.oidcStates && !(db.oidcStates[h].expiresAt < before
                        || (db.oidcStates[h].consumedAt.Some? && db.oidcStates[h].consumedAt.value < before))
                      :: db.oidcStates[h])
  }

  function PruneSessions(db: Db, before: Time): Db {
    db.(sessions := map id | id in db.sessions && !(db.sessions[id].times.expiresAt < before) :: db.sessions[id])
  }

  // ----- what each transaction keeps -----

  /** The tables stay safe, and the trail stays right if it was. */
  ghost predicate Keeps(db: Db, after: Db, settings: Settings) {
    Safe(after, settings) && (Audited(db) ==> Audited(after))
  }

  /** Logging other events alone. */
  lemma LogKeeps(db: Db, name: string, settings: Settings)
    requires Safe(db, settings)
    ensures Keeps(db, Log(db, [OtherEvent(name)]), settings)
  {
    FewerRowsAreSafe(db, Log(db, [OtherEvent(name)]), settings);
    if Audited(db) {
      QuietChangeIsAudited(db, Log(db, [OtherEvent(name)]), [OtherEvent(name)]);
    }
  }

  lemma QuietKeeps(db: Db, after: Db, settings: Settings)
    requires Safe(after, settings)
    requires after.roles == db.roles && after.audit == db.audit
    requires forall user :: Live(after, user) == Live(db, user) && (user in after.users <==> user in db.users)
    ensures Keeps(db, after, settings)
  {
    if Audited(db) {
      assert db.audit == db.audit + [];
      QuietChangeIsAudited(db, after, []);
    }
  }

  lemma RecordUserLoginKeeps(db: Db, user: UserId, at: Time, settings: Settings)
    requires Safe(db, settings) && Live(db, user)
    ensures var after := RecordUserLogin(db, user, at).value; Keeps(db, after, settings) && Live(after, user)
  {
    var u := db.users[user].(lastLoggedInAt := Some(Stored(at)));
    forall other | HasEmail(db, other, u.email) ensures other == user {
      assert HasEmail(db, user, u.email);
    }
    UpdateUserIsSafe(db, user, u, settings);
    QuietKeeps(db, PutUser(db, user, u), settings);
  }

  lemma ReplaceAuthSessionKeeps(db: Db, user: UserId, newSession: NewSession, settings: Settings)
    requires Safe(db, settings) && Live(db, user)
    ensures Keeps(db, ReplaceAuthSession(db, settings, user, newSession), settings)
  {
    if newSession.current.Some? {
      RevokingIsSafe(db, user, newSession.current.value, newSession.issuedAt, settings);
    }
    var revoked := if newSession.current == None then db
                   else RevokeActiveByToken(db, newSession.current.value, newSession.issuedAt);
    IssuedKeepsExpiry(settings, newSession.issuedAt);
    PutSessionIsSafe(revoked, newSession.id, SessionOf(settings, user, newSession), settings);
    QuietKeeps(db, ReplaceAuthSession(db, settings, user, newSession), settings);
  }

  lemma LoginKeeps(db: Db, user: UserId, newSession: NewSession, at: Time, settings: Settings)
    requires Safe(db, settings) && LoginTx(db, settings, user, newSession, at).Some?
    ensures Keeps(db, LoginTx(db, settings, user, newSession, at).value, settings)
  {
    var recorded := RecordUserLogin(db, user, at).value;
    RecordUserLoginKeeps(db, user, at, settings);
    ReplaceAuthSessionKeeps(recorded, user, newSession, settings);
    LogKeeps(ReplaceAuthSession(recorded, settings, user, newSession), "LOGIN_SUCCESS", settings);
  }

  lemma CreateUserKeeps(db: Db, id: UserId, email: string, passwordHash: Option<nat>, isActive: bool, settings: Settings)
    requires Safe(db, settings) && id !in db.users
    requires CreateUser(db, id, email, passwordHash, isActive).Some?
    ensures var after := CreateUser(db, id, email, passwordHash, isActive).value;
            Keeps(db, after, settings) && Live(after, id)
  {
    var user := User(email, passwordHash, isActive, None, None);
    AddUserIsSafe(db, id, user, settings);
    if Audited(db) {
      NewUserIsAudited(db, id, user, settings);
    }
  }

  lemma RegisterKeeps(db: Db, id: UserId, email: string, passwordHash: nat, newSession: NewSession, at: Time,
                      settings: Settings)
    requires Safe(db, settings) && id !in db.users
    requires RegisterTx(db, settings, id, email, passwordHash, newSession, at).Some?
    ensures Keeps(db, RegisterTx(db, settings, id, email, passwordHash, newSession, at).value, settings)
  {
    var created := CreateUser(db, id, email, Some(passwordHash), true).value;
    CreateUserKeeps(db, id, email, Some(passwordHash), true, settings);
    var recorded := RecordUserLogin(created, id, at).value;
    RecordUserLoginKeeps(created, id, at, settings);
    ReplaceAuthSessionKeeps(recorded, id, newSession, settings);
    LogKeeps(ReplaceAuthSession(recorded, settings, id, newSession), "REGISTER_SUCCESS", settings);
  }

  lemma RevokedSessionKeeps(db: Db, id: SessionId, at: Time, settings: Settings)
    requires Safe(db, settings) && id in db.sessions
    ensures Keeps(db, PutSession(db, id, Revoked(db.sessions[id], at)), settings)
  {
    PutSessionIsSafe(db, id, Revoked(db.sessions[id], at), settings);
    QuietKeeps(db, PutSession(db, id, Revoked(db.sessions[id], at)), settings);
  }

  lemma RevokeSessionsKeeps(db: Db, user: UserId, at: Time, settings: Settings)
    requires Safe(db, settings)
    ensures Keeps(db, RevokeSessionsOf(db, user, at), settings)
  {
    RevokingIsSafe(db, user, HashOf(0), at, settings);
    QuietKeeps(db, RevokeSessionsOf(db, user, at), settings);
  }

  /** In safe tables an active session always belongs to a user that is there and not deleted. */
  lemma AuthenticateKeeps(db: Db, id: SessionId, at: Time, settings: Settings)
    requires Safe(db, settings)
    ensures Keeps(db, AuthenticateTx(db, settings, id, at).0, settings)
    ensures id in db.sessions && IsActive(db.sessions[id], at) ==> Live(db, db.sessions[id].userId)
  {
    if id in db.sessions && IsActive(db.sessions[id], at) {
      var s := db.sessions[id];
      assert SessionOk(db, s, settings);
      if db.users[s.userId].isActive {
        TouchKeepsExpiry(settings, s.times, at);
        PutSessionIsSafe(db, id, s.(times := AfterRequest(settings, s.times, at)), settings);
        QuietKeeps(db, AuthenticateTx(db, settings, id, at).0, settings);
      } else {
        RevokeSessionsKeeps(db, s.userId, at, settings);
        LogKeeps(RevokeSessionsOf(db, s.userId, at), "SESSION_REVOKED_INACTIVE_USER", settings);
      }
    }
  }

  lemma LogoutKeeps(db: Db, id: SessionId, at: Time, settings: Settings)
    requires Safe(db, settings)
    ensures Keeps(db, LogoutTx(db, id, at), settings)
  {
    if id in db.sessions {
      RevokedSessionKeeps(db, id, at, settings);
    }
    LogKeeps(if id in db.sessions then PutSession(db, id, Revoked(db.sessions[id], at)) else db, "LOGOUT", settings);
  }

  lemma LinkKeeps(db: Db, key: IdentityKey, user: UserId, settings: Settings)
    requires Safe(db, settings) && Live(db, user)
    ensures Keeps(db, Link(db, key, user), settings)
  {
    LinkIsSafe(db, key, user, settings);
    QuietKeeps(db, Link(db, key, user), settings);
  }

  /** Resolving a login ends with a live user whom the identity is linked to. */
  lemma ResolveLoginKeeps(db: Db, provider: Provider, claims: Claims, newUser: UserId, settings: Settings)
    requires Safe(db, settings) && newUser !in db.users
    requires ResolveLogin(db, provider, claims, newUser).Some?
    ensures var r := ResolveLogin(db, provider, claims, newUser).value;
            var key := IdentityKey(provider.id, claims.subject);
            && Keeps(db, r.db, settings) && Live(r.db, r.user)
            && key in r.db.identities && r.db.identities[key] == r.user
            && r.db.sessions == db.sessions
  {
    var key := IdentityKey(provider.id, claims.subject);
    if key !in db.identities {
      var email := TrustedVerifiedEmail(provider, claims).value;
      var found := FindByEmail(db, email);
      if found.Some? {
        LinkKeeps(db, key, found.value, settings);
      } else {
        CreateUserKeeps(db, newUser, email, None, true, settings);
        LinkKeeps(CreateUser(db, newUser, email, None, true).value, key, newUser, settings);
      }
    }
  }

  lemma OidcLoginKeeps(db: Db, provider: Provider, claims: Claims, newUser: UserId, newSession: NewSession, at: Time,
                       settings: Settings)
    requires Safe(db, settings) && newUser !in db.users
    requires OidcLoginTx(db, settings, provider, claims, newUser, newSession, at).Some?
    ensures Keeps(db, OidcLoginTx(db, settings, provider, claims, newUser, newSession, at).value.db, settings)
  {
    var r := ResolveLogin(db, provider, claims, newUser).value;
    ResolveLoginKeeps(db, provider, claims, newUser, settings);
    var recorded := RecordUserLogin(r.db, r.user, at).value;
    RecordUserLoginKeeps(r.db, r.user, at, settings);
    var issued := ReplaceAuthSession(recorded, settings, r.user, newSession);
    ReplaceAuthSessionKeeps(recorded, r.user, newSession, settings);
    var timed := PutSession(issued, newSession.id, WithAuthTime(issued.sessions[newSession.id], claims.authTime));
    AuthTimeKeeps(issued, newSession.id, claims.authTime, settings);
    if r.setup.Some? {
      LogKeeps(timed, r.setup.value, settings);
    }
    LogKeeps(WithSetupAudit(timed, r.setup), "OIDC_LOGIN_SUCCESS", settings);
  }

  lemma AuthTimeKeeps(db: Db, id: SessionId, authTime: Option<int>, settings: Settings)
    requires Safe(db, settings) && id in db.sessions
    ensures Keeps(db, PutSession(db, id, WithAuthTime(db.sessions[id], authTime)), settings)
  {
    assert SessionOk(db, db.sessions[id], settings);
    PutSessionIsSafe(db, id, WithAuthTime(db.sessions[id], authTime), settings);
    QuietKeeps(db, PutSession(db, id, WithAuthTime(db.sessions[id], authTime)), settings);
  }

  lemma ReauthKeeps(db: Db, id: SessionId, authTime: int, settings: Settings)
    requires Safe(db, settings) && ReauthTx(db, id, authTime).Some?
    ensures Keeps(db, ReauthTx(db, id, authTime).value, settings)
  {
    AuthTimeKeeps(db, id, Some(authTime), settings);
    LogKeeps(PutSession(db, id, WithAuthTime(db.sessions[id], Some(authTime))), "OIDC_REAUTH_SUCCESS", settings);
  }

  /** Deleting first what hangs on the user, then marking it, then revoking its sessions. */
  lemma DeleteUserKeeps(db: Db, user: UserId, at: Time, name: Option<string>, settings: Settings)
    requires Safe(db, settings)
    requires DeleteUserTx(db, user, at, if name.Some? then [OtherEvent(name.value)] else []).Some?
    ensures var after := DeleteUserTx(db, user, at, if name.Some? then [OtherEvent(name.value)] else []).value;
            Keeps(db, after, settings) && !Live(after, user)
  {
    var bare := DeleteIdentitiesOf(DeleteRolesOf(db, user), user);
    var marked := MarkUserDeleted(bare, user, at).value;
    var revoked := RevokeSessionsOf(marked, user, at);
    DeletedIsSafe(db, user, at, settings);
    if Audited(db) {
      MarkedIsAudited(db, user, at);
      QuietKeeps(marked, revoked, settings);
    }
    if name.Some? {
      LogKeeps(revoked, name.value, settings);
    } else {
      assert Log(revoked, []) == revoked;
    }
  }

  lemma DeletedIsSafe(db: Db, user: UserId, at: Time, settings: Settings)
    requires Safe(db, settings) && user in db.users
    ensures var bare := DeleteIdentitiesOf(DeleteRolesOf(db, user), user);
            Safe(RevokeSessionsOf(MarkUserDeleted(bare, user, at).value, user, at), settings)
  {
    var marked := MarkUserDeleted(DeleteIdentitiesOf(DeleteRolesOf(db, user), user), user, at).value;
    var after := RevokeSessionsOf(marked, user, at);
    assert forall u :: Live(after, u) <==> Live(db, u) && u != user;
    forall a, b, email | HasEmail(after, a, email) && HasEmail(after, b, email) ensures a == b {
      assert HasEmail(db, a, email) && HasEmail(db, b, email);
    }
    forall id | id in after.sessions ensures SessionOk(after, after.sessions[id], settings) {
      assert SessionOk(db, db.sessions[id], settings);
    }
  }

  lemma MarkedIsAudited(db: Db, user: UserId, at: Time)
    requires Audited(db) && user in db.users
    ensures Audited(MarkUserDeleted(DeleteIdentitiesOf(DeleteRolesOf(db, user), user), user, at).value)
  {
    var bare := DeleteIdentitiesOf(DeleteRolesOf(db, user), user);
    var after := MarkUserDeleted(bare, user, at).value;
    forall u ensures RolesAudited(after, u) && DeletionAudited(after, u) {
      assert RolesAudited(db, u) && DeletionAudited(db, u);
      AuditSnoc(db.audit, UserMarkedDeleted(user), u);
      if u != user {
        assert RolesOf(after.roles, u) == RolesOf(db.roles, u);
      }
    }
  }

  // ----- roles keep the trail -----

  lemma RolesAfter(roles: set<RoleRow>, user: UserId, codes: set<RoleCode>, u: UserId)
    ensures RolesOf(WithRoles(roles, user, codes), u) == if u == user then codes else RolesOf(roles, u)
  {
    var after := WithRoles(roles, user, codes);
    if u == user {
      forall code ensures code in RolesOf(after, u) <==> code in codes {
        assert code in codes ==> RoleRow(user, code) in after;
      }
    } else {
      forall code ensures code in RolesOf(after, u) <==> code in RolesOf(roles, u) {
        assert RoleRow(u, code) in after <==> RoleRow(u, code) in roles;
      }
    }
  }

  /** Whatever roles a user is given, the rows written bring the trail to exactly those roles. */
  lemma ReplaceRolesKeeps(db: Db, user: UserId, codes: set<RoleCode>, order: RoleOrder, settings: Settings)
    requires Safe(db, settings) && Live(db, user) && OrderFits(db, user, codes, order)
    ensures Keeps(db, ReplaceRolesWithAudit(db, user, codes, order), settings)
  {
    var after := ReplaceRolesWithAudit(db, user, codes, order);
    WithRolesIsSafe(db, user, codes, settings);
    FewerRowsAreSafe(db.(roles := WithRoles(db.roles, user, codes)), after, settings);
    if Audited(db) {
      forall u ensures RolesAudited(after, u) && DeletionAudited(after, u) {
        assert RolesAudited(db, u) && DeletionAudited(db, u);
        RolesAfter(db.roles, user, codes, u);
        GrantsAreRead(db.audit, user, order.granted, u);
        RevocationsAreRead(db.audit + Grants(user, order.granted), RowsFor(user, order.revoked), u);
        RevokedRowsRead(user, order.revoked, u);
      }
    }
  }

  lemma RevokedRowsRead(user: UserId, codes: seq<RoleCode>, u: UserId)
    ensures (set row | row in RowsFor(user, codes) && row.user == u :: row.code)
         == if u == user then (set c | c in codes) else {}
  {
    var rows := RowsFor(user, codes);
    forall c | c in codes ensures RoleRow(user, c) in rows {
      var i :| 0 <= i < |codes| && codes[i] == c;
      assert rows[i] == RoleRow(user, c);
    }
  }

  lemma ReplaceUserRolesKeeps(db: Db, user: UserId, codes: set<RoleCode>, order: RoleOrder, settings: Settings)
    requires Safe(db, settings) && Live(db, user) && OrderFits(db, user, codes, order)
    ensures Keeps(db, ReplaceUserRolesTx(db, user, codes, order).value, settings)
  {
    ReplaceRolesKeeps(db, user, codes, order, settings);
  }

  lemma AdminCreateKeeps(db: Db, id: UserId, email: string, passwordHash: nat, isActive: bool,
                         codes: set<RoleCode>, order: RoleOrder, settings: Settings)
    requires Safe(db, settings) && id !in db.users && OrderFits(db, id, codes, order)
    requires AdminCreateTx(db, id, email, passwordHash, isActive, codes, order).Some?
    ensures Keeps(db, AdminCreateTx(db, id, email, passwordHash, isActive, codes, order).value, settings)
  {
    var created := CreateUser(db, id, email, Some(passwordHash), isActive).value;
    CreateUserKeeps(db, id, email, Some(passwordHash), isActive, settings);
    LogKeeps(created, "USER_CREATED_BY_ADMIN", settings);
    ReplaceRolesKeeps(Log(created, [OtherEvent("USER_CREATED_BY_ADMIN")]), id, codes, order, settings);
  }

  lemma UpdateUserKeeps(db: Db, user: UserId, changes: UserChanges, settings: Settings)
    requires Safe(db, settings) && UpdateUser(db, user, changes).Some?
    ensures var after := UpdateUser(db, user, changes).value;
            Keeps(db, after, settings) && Live(after, user) && after.roles == db.roles
  {
    var after := UpdateUser(db, user, changes).value;
    var u := after.users[user];
    forall other | HasEmail(db, other, u.email) ensures other == user {
      assert HasEmail(db, user, db.users[user].email);
      if changes.email.Some? {
        var found := FindByEmail(db, changes.email.value);
        assert HasEmail(db, found.value, changes.email.value);
      }
    }
    UpdateUserIsSafe(db, user, u, settings);
    QuietKeeps(db, after, settings);
  }

  lemma AdminUpdateKeeps(db: Db, user: UserId, changes: UserChanges, order: RoleOrder, at: Time, settings: Settings)
    requires Safe(db, settings) && AdminUpdateTx(db, user, changes, order, at).Some?
    requires changes.roles.Some? ==> OrderFits(db, user, changes.roles.value, order)
    ensures Keeps(db, AdminUpdateTx(db, user, changes, order, at).value, settings)
  {
    var updated := UpdateUser(db, user, changes).value;
    UpdateUserKeeps(db, user, changes, settings);
    var roled := if changes.roles.Some? then ReplaceRolesWithAudit(updated, user, changes.roles.value, order) else updated;
    if changes.roles.Some? {
      ReplaceRolesKeeps(updated, user, changes.roles.value, order, settings);
    }
    RevokeSessionsKeeps(roled, user, at, settings);
    var revoked := if changes.passwordHash.Some? || changes.isActive == Some(false)
                   then RevokeSessionsOf(roled, user, at) else roled;
    LogKeeps(revoked, "USER_UPDATED_BY_ADMIN", settings);
  }

  lemma GrantKeeps(db: Db, user: UserId, code: RoleCode, granted: seq<RoleCode>, settings: Settings)
    requires Safe(db, settings) && Live(db, user) && Lists(granted, {code} - RolesOf(db.roles, user))
    ensures Keeps(db, GrantTo(db, user, code, granted), settings)
  {
    var codes := RolesOf(db.roles, user) + {code};
    var order := RoleOrder(granted, []);
    ReplaceRolesKeeps(db, user, codes, order, settings);
    assert ReplaceRolesWithAudit(db, user, codes, order) == GrantTo(db, user, code, granted) by {
      assert Revocations(RowsFor(user, [])) == [];
      assert (db.audit + Grants(user, granted)) + [] == db.audit + Grants(user, granted);
    }
  }

  lemma SeedAdminKeeps(db: Db, newUser: UserId, email: string, passwordHash: nat, code: RoleCode,
                       granted: seq<RoleCode>, settings: Settings)
    requires Safe(db, settings) && newUser !in db.users
    requires var found := FindByEmail(db, email);
             Lists(granted, {code} - RolesOf(db.roles, if found.Some? then found.value else newUser))
    requires SeedAdminTx(db, newUser, email, passwordHash, code, granted).Some?
    ensures Keeps(db, SeedAdminTx(db, newUser, email, passwordHash, code, granted).value, settings)
  {
    var found := FindByEmail(db, email);
    if found.Some? {
      var changes := UserChanges(None, Some(passwordHash), Some(true), None);
      UpdateUserKeeps(db, found.value, changes, settings);
      GrantKeeps(UpdateUser(db, found.value, changes).value, found.value, code, granted, settings);
    } else {
      CreateUserKeeps(db, newUser, email, Some(passwordHash), true, settings);
      GrantKeeps(CreateUser(db, newUser, email, Some(passwordHash), true).value, newUser, code, granted, settings);
    }
  }

  lemma PruneRolesKeeps(db: Db, known: set<RoleCode>, order: seq<RoleRow>, settings: Settings)
    requires Safe(db, settings) && known != {} && Lists(order, UnknownRows(db.roles, known))
    ensures Keeps(db, PruneRolesTx(db, known, order).value, settings)
  {
    var after := PruneRolesTx(db, known, order).value;
    FewerRowsAreSafe(db, after, settings);
    if Audited(db) {
      forall u ensures RolesAudited(after, u) && DeletionAudited(after, u) {
        assert RolesAudited(db, u) && DeletionAudited(db, u);
        RevocationsAreRead(db.audit, order, u);
        PrunedRolesOf(db.roles, known, order, u);
      }
    }
  }

  lemma PrunedRolesOf(roles: set<RoleRow>, known: set<RoleCode>, order: seq<RoleRow>, u: UserId)
    requires Lists(order, UnknownRows(roles, known))
    ensures RolesOf(roles - UnknownRows(roles, known), u)
         == RolesOf(roles, u) - (set row | row in order && row.user == u :: row.code)
  {
    forall code
      ensures code in RolesOf(roles - UnknownRows(roles, known), u)
         <==> code in RolesOf(roles, u) && !(code in set row | row in order && row.user == u :: row.code)
    {
      assert RoleRow(u, code) in order <==> RoleRow(u, code) in UnknownRows(roles, known);
    }
  }

  lemma StatesKeep(db: Db, states: map<Digest, OidcState>, settings: Settings)
    requires Safe(db, settings)
    ensures Keeps(db, db.(oidcStates := states), settings)
  {
    FewerRowsAreSafe(db, db.(oidcStates := states), settings);
    QuietKeeps(db, db.(oidcStates := states), settings);
  }

  lemma PruneSessionsKeeps(db: Db, before: Time, settings: Settings)
    requires Safe(db, settings)
    ensures Keeps(db, PruneSessions(db, before), settings)
  {
    FewerRowsAreSafe(db, PruneSessions(db, before), settings);
    QuietKeeps(db, PruneSessions(db, before), settings);
  }
}
