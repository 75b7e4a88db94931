/**
 Requests and commands interleaving on the auth tables.  Each step is one transaction (or one lone read); what a
 request carries from one step to the next is remembered in the world and can be used at any later time, any
 number of times.  Histories (starts, acceptances, records, ...) are kept to state what happened before.
 */
module AuthSystem {
  import opened Basics
  import opened SessionExpiry
  import opened AuthDatabase
  import opened AuthTransactions

  /** The code challenge of a PKCE verifier; the hash is injective. */
  datatype Challenge = S256(verifier: nat)

  /** What left for the browser and the provider when an authorization was started. */
  datatype Start = Start(bindingHash: Digest, nonceHash: Digest, challenge: Challenge, provider: string, expiresAt: Time)

  /** A callback, with or without a provider error, whose state was accepted. */
  datatype Acceptance = Acceptance(stateHash: Digest, provider: string, bindingHash: Digest, at: Time, state: OidcState)

  /** An authenticated request: the user and session rows as they were read. */
  datatype Context = Context(user: UserId, session: SessionId, passwordHash: Option<nat>, lastOidcAt: Option<Time>)

  datatype Linked = Linked(key: IdentityKey, user: UserId)

  /** An accepted callback that is about to record, or has recorded, an authentication time on a session. */
  datatype AuthRecord = AuthRecord(session: SessionId, user: UserId, key: IdentityKey, authTime: int,
                                   nonce: nat, stateHash: Digest)

  /** A deletion whose reauthentication check passed at `at`. */
  datatype Approval = Approval(context: Context, at: Time)

  datatype World = World(db: Db, starts: map<Digest, Start>, accepted: seq<Acceptance>,
                         owners: map<SessionId, UserId>, contexts: set<Context>, links: set<Linked>,
                         lookups: set<AuthRecord>, records: set<AuthRecord>, approvals: set<Approval>,
                         checked: set<UserId>)

  const EMPTY := World(EMPTY_DB, map[], [], map[], {}, {}, {}, {}, {}, {})

  datatype Config = Config(sessions: Settings, reauthFreshness: int, stateTtl: int, leeway: int)

  datatype Step =
    | Register(newUser: UserId, email: string, passwordHash: nat, newSession: NewSession, at: Time)
    | CheckPassword(email: string, verifiedHash: Option<nat>)
    | Login(user: UserId, newSession: NewSession, at: Time)
    | StartOidc(stateHash: Digest, verifier: nat, bindingHash: Digest, nonceHash: Digest, providerId: string,
                purpose: Purpose, current: Option<Context>, at: Time)
    | Callback(providerId: string, stateHash: Digest, bindingHash: Digest, at: Time)
    | OidcLogin(acceptance: Acceptance, provider: Provider, claims: Claims, validatedAt: Time,
                newUser: UserId, newSession: NewSession, at: Time)
    | LookUpReauth(acceptance: Acceptance, context: Context, claims: Claims, validatedAt: Time, at: Time)
    | RecordReauth(lookup: AuthRecord)
    | Authenticate(session: SessionId, at: Time)
    | Logout(session: SessionId, at: Time)
    | ApproveDeletion(context: Context, verifiedHash: Option<nat>, at: Time)
    | DeleteAccount(approval: Approval, deletedAt: Time)
    | Execute(command: Command)

  /** What administrators, the command line and the pruning jobs do, each in one transaction of its own. */
  datatype Command =
    | AdminDelete(user: UserId, at: Time)
    | AdminCreate(newUser: UserId, email: string, passwordHash: nat, isActive: bool, codes: set<RoleCode>, order: RoleOrder)
    | AdminUpdate(user: UserId, changes: UserChanges, order: RoleOrder, at: Time)
    | ReplaceUserRoles(user: UserId, codes: set<RoleCode>, order: RoleOrder)
    | GrantRole(email: string, code: RoleCode, granted: seq<RoleCode>)
    | SeedAdmin(newUser: UserId, email: string, passwordHash: nat, code: RoleCode, granted: seq<RoleCode>)
    | PruneRoles(known: set<RoleCode>, rowOrder: seq<RoleRow>)
    | PruneExpiredSessions(before: Time)
    | PruneOidcStates(before: Time)
    | PruneAudit(kept: seq<Audit>)
    | OtherAudit(name: string)

  /** Fresh ids and tokens are new; a request continues only with what it has seen. */
  ghost predicate Enabled(w: World, step: Step, config: Config) {
    match step
    case Register(newUser, _, _, newSession, _) => newUser !in w.db.users && newSession.id !in w.owners
    case Login(user, newSession, _) => user in w.checked && newSession.id !in w.owners
    case StartOidc(stateHash, _, _, _, _, purpose, current, _) =>
      && stateHash !in w.starts
      && (current.Some? ==> current.value in w.contexts)
      && (purpose == DeletionReauth ==> current.Some?)
    case OidcLogin(acceptance, provider, claims, validatedAt, newUser, newSession, _) =>
      && newUser !in w.db.users && newSession.id !in w.owners
      && acceptance in w.accepted && acceptance.provider == provider.id && acceptance.state.purpose == LoginPurpose
      && TokenAccepted(claims, acceptance.state.nonceHash, false, config.leeway, validatedAt)
    case LookUpReauth(acceptance, context, claims, validatedAt, at) =>
      && acceptance in w.accepted && acceptance.state.purpose == DeletionReauth && context in w.contexts
      && TokenAccepted(claims, acceptance.state.nonceHash, true, config.leeway, validatedAt)
      && ReauthMatches(w.db, acceptance, context, claims, at, config)
    case RecordReauth(lookup) => lookup in w.lookups
    case ApproveDeletion(context, verifiedHash, at) =>
      context in w.contexts && MayDelete(context, verifiedHash, at, config)
    case DeleteAccount(approval, deletedAt) => approval in w.approvals && approval.at <= deletedAt
    case Execute(command) => CommandFits(w.db, command)
    case _ => true
  }

  /** New ids are new, and the listed order of a role change lists that change. */
  ghost predicate CommandFits(db: Db, command: Command) {
    match command
    case AdminCreate(newUser, _, _, _, codes, order) => newUser !in db.users && OrderFits(db, newUser, codes, order)
    case AdminUpdate(user, changes, order, _) => changes.roles.Some? ==> OrderFits(db, user, changes.roles.value, order)
    case ReplaceUserRoles(user, codes, order) => OrderFits(db, user, codes, order)
    case GrantRole(email, code, granted) =>
      var found := FindByEmail(db, email);
      found.Some? ==> Lists(granted, {code} - RolesOf(db.roles, found.value))
    case SeedAdmin(newUser, email, _, code, granted) =>
      var found := FindByEmail(db, email);
      && newUser !in db.users
      && Lists(granted, {code} - RolesOf(db.roles, if found.Some? then found.value else newUser))
    case PruneRoles(known, order) => known != {} ==> Lists(order, UnknownRows(db.roles, known))
    case _ => true
  }

  ghost function CommandTx(db: Db, command: Command): Option<Db> {
    match command
    case AdminDelete(user, at) => DeleteUserTx(db, user, at, [OtherEvent("USER_DELETED_BY_ADMIN")])
    case AdminCreate(newUser, email, passwordHash, isActive, codes, order) =>
      AdminCreateTx(db, newUser, email, passwordHash, isActive, codes, order)
    case AdminUpdate(user, changes, order, at) => AdminUpdateTx(db, user, changes, order, at)
    case ReplaceUserRoles(user, codes, order) => ReplaceUserRolesTx(db, user, codes, order)
    case GrantRole(email, code, granted) => GrantRoleTx(db, email, code, granted)
    case SeedAdmin(newUser, email, passwordHash, code, granted) =>
      SeedAdminTx(db, newUser, email, passwordHash, code, granted)
    case PruneRoles(known, order) => PruneRolesTx(db, known, order)
    case PruneExpiredSessions(before) => Some(PruneSessions(db, before))
    case PruneOidcStates(before) => Some(PruneStates(db, before))
    case PruneAudit(kept) => Some(db.(audit := kept))
    case OtherAudit(name) => Some(Log(db, [OtherEvent(name)]))
  }

  /** The checks of the reauthentication callback before it records anything. */
  predicate ReauthMatches(db: Db, acceptance: Acceptance, context: Context, claims: Claims, at: Time, config: Config) {
    var key := IdentityKey(acceptance.provider, claims.subject);
    && acceptance.state.expectedUser == Some(context.user) && acceptance.state.expectedSession == Some(context.session)
    && key in db.identities && db.identities[key] == context.user
    && claims.authTime.Some? && at - claims.authTime.value * SECOND <= config.reauthFreshness * SECOND
  }

  /** The user that the login's address and password are right for: live, active and with a password of its own. */
  ghost function Credentialed(db: Db, email: string, verifiedHash: Option<nat>): Option<UserId> {
    var found := FindByEmail(db, email);
    if found == None then None
    else
      var user := db.users[found.value];
      if user.isActive && user.passwordHash.Some? && verifiedHash == user.passwordHash then found else None
  }

  /** A user with a password shows it; one without needs a fresh OIDC authentication on the session. */
  predicate MayDelete(context: Context, verifiedHash: Option<nat>, at: Time, config: Config) {
    if context.passwordHash.Some? then verifiedHash == context.passwordHash
    else context.lastOidcAt.Some? && at - context.lastOidcAt.value <= config.reauthFreshness * SECOND
  }

  function Updated(w: World, db: Option<Db>): World {
    if db.Some? then w.(db := db.value) else w
  }

  /** The stored form of an authorization that starts now. */
  function NewState(verifier: nat, bindingHash: Digest, nonceHash: Digest, providerId: string, purpose: Purpose,
                    current: Option<Context>, expiresAt: Time): OidcState
  {
    OidcState(bindingHash, nonceHash, verifier, providerId, purpose,
              if current.Some? then Some(current.value.user) else None,
              if current.Some? then Some(current.value.session) else None, Stored(expiresAt), None)
  }

  /** The world after an enabled step; a refused transaction changes nothing. */
  ghost function Next(w: World, step: Step, config: Config): World
    requires Enabled(w, step, config)
  {
    match step
    case Register(newUser, email, passwordHash, newSession, at) =>
      WithSession(w, RegisterTx(w.db, config.sessions, newUser, email, passwordHash, newSession, at), newSession.id, newUser)
    case CheckPassword(email, verifiedHash) =>
      var user := Credentialed(w.db, email, verifiedHash);
      if user.Some? then w.(checked := w.checked + {user.value})
      else w.(db := Log(w.db, [OtherEvent("LOGIN_FAILED")]))
    case Login(user, newSession, at) =>
      WithSession(w, LoginTx(w.db, config.sessions, user, newSession, at), newSession.id, user)
    case StartOidc(stateHash, verifier, bindingHash, nonceHash, providerId, purpose, current, at) =>
      var state := NewState(verifier, bindingHash, nonceHash, providerId, purpose, current, at + config.stateTtl * SECOND);
      w.(db := w.db.(oidcStates := w.db.oidcStates[stateHash := state]),
         starts := w.starts[stateHash := Start(bindingHash, nonceHash, S256(verifier), providerId,
                                               at + config.stateTtl * SECOND)])
    case Callback(providerId, stateHash, bindingHash, at) =>
      var consumed := w.(db := ConsumeTx(w.db, stateHash, bindingHash, at));
      if ConsumeStatusOf(w.db, stateHash, bindingHash, at) == Consumed && w.db.oidcStates[stateHash].provider == providerId
      then
        var acceptance := Acceptance(stateHash, providerId, bindingHash, at, w.db.oidcStates[stateHash]);
        consumed.(accepted := w.accepted + [acceptance])
      else consumed
    case OidcLogin(acceptance, provider, claims, _, newUser, newSession, at) =>
      var r := OidcLoginTx(w.db, config.sessions, provider, claims, newUser, newSession, at);
      if r == None then w
      else
        var key := IdentityKey(provider.id, claims.subject);
        WithSession(w, Some(r.value.db), newSession.id, r.value.user)
          .(links := w.links + {Linked(key, r.value.user)},
            records := w.records + if claims.authTime == None then {}
                       else {AuthRecord(newSession.id, r.value.user, key, claims.authTime.value, claims.nonce,
                                        acceptance.stateHash)})
    case LookUpReauth(acceptance, context, claims, _, _) =>
      w.(lookups := w.lookups + {AuthRecord(context.session, context.user, IdentityKey(acceptance.provider, claims.subject),
                                            claims.authTime.value, claims.nonce, acceptance.stateHash)})
    case RecordReauth(lookup) =>
      var r := ReauthTx(w.db, lookup.session, lookup.authTime);
      if r == None then w else w.(db := r.value, records := w.records + {lookup})
    case Authenticate(session, at) =>
      var (db, ok) := AuthenticateTx(w.db, config.sessions, session, at);
      w.(db := db,
         contexts := w.contexts + if !ok then {}
                     else var s := db.sessions[session];
                       {Context(s.userId, session, db.users[s.userId].passwordHash, s.lastOidcAt)})
    case Logout(session, at) => w.(db := LogoutTx(w.db, session, at))
    case ApproveDeletion(context, _, at) => w.(approvals := w.approvals + {Approval(context, at)})
    case DeleteAccount(approval, deletedAt) => Updated(w, DeleteUserTx(w.db, approval.context.user, deletedAt, []))
    case Execute(command) => Updated(w, CommandTx(w.db, command))
  }

  function WithSession(w: World, db: Option<Db>, id: SessionId, user: UserId): World {
    if db.Some? then w.(db := db.value, owners := w.owners[id := user]) else w
  }

  /** A step that is not enabled when its turn comes does not happen. */
  ghost function Do(w: World, step: Step, config: Config): World {
    if Enabled(w, step, config) then Next(w, step, config) else w
  }

  ghost function RunFrom(w: World, steps: seq<Step>, config: Config): World
    decreases |steps|
  {
    if steps == [] then w else RunFrom(Do(w, steps[0], config), steps[1..], config)
  }

  ghost function Run(steps: seq<Step>, config: Config): World {
    RunFrom(EMPTY, steps, config)
  }

  predicate PrunesAudit(step: Step) {
    step.Execute? && step.command.PruneAudit?
  }

  predicate KeepsAudit(steps: seq<Step>) {
    forall i :: 0 <= i < |steps| ==> !PrunesAudit(steps[i])
  }

  // ----- the tables -----

  lemma CommandKeepsTables(db: Db, command: Command, s: Settings)
    requires Safe(db, s) && CommandFits(db, command) && CommandTx(db, command).Some?
    ensures Safe(CommandTx(db, command).value, s)
    ensures Audited(db) && !command.PruneAudit? ==> Audited(CommandTx(db, command).value)
  {
    match command
    case AdminDelete(user, at) => DeleteUserKeeps(db, user, at, Some("USER_DELETED_BY_ADMIN"), s);
    case AdminCreate(newUser, email, passwordHash, isActive, codes, order) =>
      AdminCreateKeeps(db, newUser, email, passwordHash, isActive, codes, order, s);
    case AdminUpdate(user, changes, order, at) => AdminUpdateKeeps(db, user, changes, order, at, s);
    case ReplaceUserRoles(user, codes, order) => ReplaceUserRolesKeeps(db, user, codes, order, s);
    case GrantRole(email, code, granted) => GrantKeeps(db, FindByEmail(db, email).value, code, granted, s);
    case SeedAdmin(newUser, email, passwordHash, code, granted) =>
      SeedAdminKeeps(db, newUser, email, passwordHash, code, granted, s);
    case PruneRoles(known, order) => PruneRolesKeeps(db, known, order, s);
    case PruneExpiredSessions(before) => PruneSessionsKeeps(db, before, s);
    case PruneOidcStates(before) => StatesKeep(db, PruneStates(db, before).oidcStates, s);
    case PruneAudit(kept) => FewerRowsAreSafe(db, db.(audit := kept), s);
    case OtherAudit(name) => LogKeeps(db, name, s);
  }

  lemma StepKeepsTables(w: World, step: Step, config: Config)
    requires Safe(w.db, config.sessions) && Enabled(w, step, config)
    ensures Safe(Next(w, step, config).db, config.sessions)
    ensures Audited(w.db) && !PrunesAudit(step) ==> Audited(Next(w, step, config).db)
  {
    var s := config.sessions;
    var after := Next(w, step, config);
    if after.db != w.db {
      match step
      case Register(newUser, email, passwordHash, newSession, at) =>
        RegisterKeeps(w.db, newUser, email, passwordHash, newSession, at, s);
      case CheckPassword(_, _) => LogKeeps(w.db, "LOGIN_FAILED", s);
      case Login(user, newSession, at) => LoginKeeps(w.db, user, newSession, at, s);
      case StartOidc(_, _, _, _, _, _, _, _) => StatesKeep(w.db, after.db.oidcStates, s);
      case Callback(_, _, _, _) => StatesKeep(w.db, after.db.oidcStates, s);
      case OidcLogin(_, provider, claims, _, newUser, newSession, at) =>
        OidcLoginKeeps(w.db, provider, claims, newUser, newSession, at, s);
      case RecordReauth(lookup) => ReauthKeeps(w.db, lookup.session, lookup.authTime, s);
      case Authenticate(session, at) => AuthenticateKeeps(w.db, session, at, s);
      case Logout(session, at) => LogoutKeeps(w.db, session, at, s);
      case DeleteAccount(approval, deletedAt) => DeleteUserKeeps(w.db, approval.context.user, deletedAt, None, s);
      case Execute(command) => CommandKeepsTables(w.db, command, s);
      case _ =>
    }
  }

  lemma {:induction false} RunKeepsTables(w: World, steps: seq<Step>, config: Config)
    requires Safe(w.db, config.sessions)
    ensures Safe(RunFrom(w, steps, config).db, config.sessions)
    ensures Audited(w.db) && KeepsAudit(steps) ==> Audited(RunFrom(w, steps, config).db)
    decreases |steps|
  {
    if steps != [] {
      if Enabled(w, steps[0], config) {
        StepKeepsTables(w, steps[0], config);
      }
      RunKeepsTables(Do(w, steps[0], config), steps[1..], config);
    }
  }

  /** In every reachable state a deleted user has no unrevoked session, no identity and no role. */
  lemma DeletedUsersHaveNothing(steps: seq<Step>, config: Config, user: UserId)
    requires var db := Run(steps, config).db; user in db.users && db.users[user].deletedAt.Some?
    ensures var db := Run(steps, config).db;
            && (forall id :: id in db.sessions && db.sessions[id].userId == user ==> db.sessions[id].revokedAt.Some?)
            && (forall key :: key in db.identities ==> db.identities[key] != user)
            && RolesOf(db.roles, user) == {}
  {
    RunKeepsTables(EMPTY, steps, config);
    var db := Run(steps, config).db;
    forall id | id in db.sessions && db.sessions[id].userId == user ensures db.sessions[id].revokedAt.Some? {
      assert SessionOk(db, db.sessions[id], config.sessions);
    }
    assert forall row :: row in db.roles ==> row.user != user;
  }

  lemma EmptyIsAudited()
    ensures Audited(EMPTY.db)
  {
    forall user ensures RolesAudited(EMPTY_DB, user) && DeletionAudited(EMPTY_DB, user) {
    }
  }

  /** While audit rows are not pruned, a user has one deletion row if it is deleted and none otherwise. */
  lemma OneDeletionRowEach(steps: seq<Step>, config: Config, user: UserId)
    requires KeepsAudit(steps)
    ensures var db := Run(steps, config).db;
            DeletionRows(db.audit, user) == if user in db.users && db.users[user].deletedAt.Some? then 1 else 0
  {
    EmptyIsAudited();
    RunKeepsTables(EMPTY, steps, config);
    assert DeletionAudited(Run(steps, config).db, user);
  }

  /** While audit rows are not pruned, the trail of a user that is not deleted gives exactly its stored roles. */
  lemma TrailGivesRoles(steps: seq<Step>, config: Config, user: UserId)
    requires KeepsAudit(steps) && Live(Run(steps, config).db, user)
    ensures var db := Run(steps, config).db; AuditedRoles(db.audit, user) == RolesOf(db.roles, user)
  {
    EmptyIsAudited();
    RunKeepsTables(EMPTY, steps, config);
    assert RolesAudited(Run(steps, config).db, user);
  }

  /** Every stored session expires at the earlier of its absolute and its idle limit. */
  lemma SessionsExpireOnTime(steps: seq<Step>, config: Config, id: SessionId)
    requires id in Run(steps, config).db.sessions
    ensures var t := Run(steps, config).db.sessions[id].times;
            var limits := config.sessions;
            t.expiresAt == Min(t.issuedAt + limits.absoluteTtl * SECOND, t.lastSeenAt + limits.idleTtl * SECOND)
  {
    RunKeepsTables(EMPTY, steps, config);
    assert SessionOk(Run(steps, config).db, Run(steps, config).db.sessions[id], config.sessions);
  }

  /** An active session belongs to a user that is there and not deleted: two branches never run. */
  lemma ActiveSessionsHaveUsers(steps: seq<Step>, config: Config, id: SessionId, at: Time)
    requires var db := Run(steps, config).db; id in db.sessions && IsActive(db.sessions[id], at)
    ensures var db := Run(steps, config).db; Live(db, db.sessions[id].userId)
  {
    RunKeepsTables(EMPTY, steps, config);
    AuthenticateKeeps(Run(steps, config).db, id, at, config.sessions);
  }

  /** No two users that are not deleted share an address, so every lookup by address has one answer. */
  lemma AddressesAreUnique(steps: seq<Step>, config: Config, a: UserId, b: UserId, email: string)
    requires var db := Run(steps, config).db; HasEmail(db, a, email) && HasEmail(db, b, email)
    ensures a == b
  {
    RunKeepsTables(EMPTY, steps, config);
  }
}
