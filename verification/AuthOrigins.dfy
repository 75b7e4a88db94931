/**
 Where everything in a reachable world comes from: the links of identities, the contexts of requests, the approvals of
 deletions and the sessions.  Each is traced to the step of the run that brought it, and to what the tables said then.
 */
module AuthOrigins {
  import opened Basics
  import opened SessionExpiry
  import opened AuthDatabase
  import opened AuthTransactions
  import opened AuthPromises
  import opened AuthSystem
  import opened AuthHistory

  // ----- the step that brought something -----

  lemma {:induction false} RunSnoc(w: World, steps: seq<Step>, config: Config)
    requires steps != []
    ensures var n := |steps| - 1;
            RunFrom(w, steps, config) == Do(RunFrom(w, steps[..n], config), steps[n], config)
    decreases |steps|
  {
    var n := |steps| - 1;
    if n == 0 {
      assert steps[1..] == [];
    } else {
      var rest := steps[1..];
      RunSnoc(Do(w, steps[0], config), rest, config);
      assert rest[..n - 1] == steps[..n][1..] && rest[n - 1] == steps[n];
    }
  }

  /** Step i of the run goes from `before` to `after`, which is what it does there. */
  ghost predicate StepAt(steps: seq<Step>, config: Config, i: nat, before: World, after: World) {
    && i < |steps| && before == Run(steps[..i], config) && after == Run(steps[..i + 1], config)
    && Enabled(before, steps[i], config) && after == Next(before, steps[i], config)
  }

  /** What does not hold at first and holds after a run came to hold at one of its steps. */
  lemma {:induction false} FirstHeld(steps: seq<Step>, config: Config, holds: World -> bool)
    returns (i: nat, before: World, after: World)
    requires !holds(EMPTY) && holds(Run(steps, config))
    ensures StepAt(steps, config, i, before, after) && !holds(before) && holds(after)
  {
    var n := |steps| - 1;
    RunSnoc(EMPTY, steps, config);
    before, after := Run(steps[..n], config), Run(steps, config);
    if holds(before) {
      i, before, after := FirstHeld(steps[..n], config, holds);
      assert steps[..n][..i] == steps[..i] && steps[..n][..i + 1] == steps[..i + 1];
    } else {
      i := n;
      assert steps[..n + 1] == steps;
    }
  }

  // ----- callbacks -----

  /** The step that started an authorization, with everything that its stored state is to carry. */
  predicate Starts(step: Step, h: Digest, state: OidcState, config: Config) {
    && step.StartOidc? && step.stateHash == h
    && state.provider == step.providerId && state.purpose == step.purpose && state.bindingHash == step.bindingHash
    && state.nonceHash == step.nonceHash && state.pkceVerifier == step.verifier
    && state.expiresAt == Stored(step.at + config.stateTtl * SECOND)
    && (if step.current.Some?
        then && state.expectedUser == Some(step.current.value.user)
             && state.expectedSession == Some(step.current.value.session)
        else step.purpose == LoginPurpose && state.expectedUser == None && state.expectedSession == None)
  }

  /** This state, pending or consumed, is stored under the hash. */
  predicate Stores(db: Db, h: Digest, state: OidcState) {
    h in db.oidcStates && db.oidcStates[h].(consumedAt := None) == state.(consumedAt := None)
  }

  /** Every accepted callback was started by a step whose state it got, for the request's user if one was signed in. */
  lemma AcceptancesWereStarted(steps: seq<Step>, config: Config, a: Acceptance) returns (i: nat)
    requires a in Run(steps, config).accepted
    ensures i < |steps| && Starts(steps[i], a.stateHash, a.state, config) && a.provider == steps[i].providerId
    ensures steps[i].current.Some? ==> steps[i].current.value in Run(steps[..i], config).contexts
  {
    var k, called, accepting := FirstHeld(steps, config, (w: World) => a in w.accepted);
    AcceptingFinds(called, steps[k], config, a);
    var before, after;
    i, before, after := FirstHeld(steps[..k], config, (w: World) => Stores(w.db, a.stateHash, a.state));
    assert steps[..k][..i] == steps[..i];
    StoringStarts(before, steps[i], config, a.stateHash, a.state);
  }

  lemma AcceptingFinds(w: World, step: Step, config: Config, a: Acceptance)
    requires Enabled(w, step, config) && a !in w.accepted && a in Next(w, step, config).accepted
    ensures step.Callback? && Stores(w.db, a.stateHash, a.state) && a.provider == a.state.provider
  {
    if !TouchesStates(step) {
      OtherStepsLeaveStates(w, step, config);
    }
  }

  lemma StoringStarts(w: World, step: Step, config: Config, h: Digest, state: OidcState)
    requires Enabled(w, step, config) && !Stores(w.db, h, state) && Stores(Next(w, step, config).db, h, state)
    ensures Starts(step, h, state, config) && (step.current.Some? ==> step.current.value in w.contexts)
  {
    if !TouchesStates(step) {
      OtherStepsLeaveStates(w, step, config);
    } else if step.Callback? {
      CallbackOnlyConsumes(w, step, config, h, state);
    }
  }

  lemma CallbackOnlyConsumes(w: World, step: Step, config: Config, h: Digest, state: OidcState)
    requires step.Callback?
    ensures Stores(Next(w, step, config).db, h, state) <==> Stores(w.db, h, state)
  {
  }

  // ----- identities -----

  /** The step is a sign-in whose provider is trusted for the address that its token vouches for. */
  predicate VouchesFor(step: Step, key: IdentityKey, address: string) {
    && step.OidcLogin? && key == IdentityKey(step.provider.id, step.claims.subject)
    && step.provider.trustVerifiedEmail && step.claims.emailVerified && step.claims.email == Some(address)
    && address != ""
  }

  /**
   Every identity ever linked to a user was linked by a sign-in whose token, good and answering an accepted callback,
   vouched for the very address that the user had then.
   */
  lemma LinksAreVouchedFor(steps: seq<Step>, config: Config, l: Linked) returns (i: nat, address: string)
    requires l in Run(steps, config).links
    ensures i < |steps| && VouchesFor(steps[i], l.key, address)
    ensures HasEmail(Run(steps[..i + 1], config).db, l.user, address)
    ensures steps[i].acceptance in Run(steps[..i], config).accepted
    ensures TokenIsGood(steps[i].claims, steps[i].acceptance, steps[i].validatedAt, config)
    ensures Run(steps[..i + 1], config).db.users[l.user].isActive
  {
    var before, after;
    i, before, after := FirstHeld(steps, config, (w: World) => l in w.links);
    WorldIsInOrder(steps[..i], config);
    LinkingVouches(before, steps[i], config, l);
    address := steps[i].claims.email.value;
  }

  lemma WorldIsInOrder(steps: seq<Step>, config: Config)
    ensures Safe(Run(steps, config).db, config.sessions) && IdentitiesLinked(Run(steps, config))
  {
    RunKeepsTables(EMPTY, steps, config);
    RunKeepsReauth(EMPTY, steps, config);
  }

  lemma LinkingVouches(w: World, step: Step, config: Config, l: Linked)
    requires Enabled(w, step, config) && IdentitiesLinked(w) && Safe(w.db, config.sessions)
    requires l !in w.links && l in Next(w, step, config).links
    ensures step.OidcLogin? && step.claims.email.Some? && VouchesFor(step, l.key, step.claims.email.value)
    ensures step.acceptance in w.accepted && TokenIsGood(step.claims, step.acceptance, step.validatedAt, config)
    ensures var db := Next(w, step, config).db;
            HasEmail(db, l.user, step.claims.email.value) && db.users[l.user].isActive
  {
    assert step.OidcLogin?;
    SignInGoesThrough(w.db, step.provider, step.claims, step.newUser);
    SignInLinks(w.db, step.provider, step.claims, step.newUser);
    var resolved := ResolveLogin(w.db, step.provider, step.claims, step.newUser).value;
    assert l == Linked(IdentityKey(step.provider.id, step.claims.subject), resolved.user);
    assert l.key !in w.db.identities;
    OidcLoginKeepsUser(w.db, config.sessions, step.provider, step.claims, step.newUser, step.newSession, step.at);
  }

  /** After it is resolved, a sign-in changes nothing of its user but the time of its last login. */
  lemma OidcLoginKeepsUser(db: Db, settings: Settings, provider: Provider, claims: Claims, newUser: UserId,
                           newSession: NewSession, at: Time)
    requires OidcLoginTx(db, settings, provider, claims, newUser, newSession, at).Some?
    ensures var resolved := ResolveLogin(db, provider, claims, newUser).value;
            var r := OidcLoginTx(db, settings, provider, claims, newUser, newSession, at).value;
            && r.user == resolved.user && r.user in resolved.db.users
            && r.db.users == resolved.db.users[r.user :=
                 resolved.db.users[r.user].(lastLoggedInAt := Some(Stored(at)))]
  {
  }

  // ----- requests -----

  /** Every context a request got was given when its user was active and its session good, and shows both as they were. */
  lemma ContextsWereEarned(steps: seq<Step>, config: Config, c: Context) returns (i: nat)
    requires c in Run(steps, config).contexts
    ensures i < |steps| && steps[i].Authenticate? && steps[i].session == c.session
    ensures var db := Run(steps[..i], config).db;
            && MayEnter(db, c.session, steps[i].at) && db.sessions[c.session].userId == c.user
            && db.users[c.user].passwordHash == c.passwordHash && db.sessions[c.session].lastOidcAt == c.lastOidcAt
  {
    var before, after;
    i, before, after := FirstHeld(steps, config, (w: World) => c in w.contexts);
    RequestGivesContext(before, steps[i], config, c);
  }

  lemma RequestGivesContext(w: World, step: Step, config: Config, c: Context)
    requires Enabled(w, step, config) && c !in w.contexts && c in Next(w, step, config).contexts
    ensures step.Authenticate? && step.session == c.session && MayEnter(w.db, c.session, step.at)
    ensures w.db.sessions[c.session].userId == c.user && w.db.users[c.user].passwordHash == c.passwordHash
    ensures w.db.sessions[c.session].lastOidcAt == c.lastOidcAt
  {
    assert step.Authenticate?;
    RequestGoesThrough(w.db, config.sessions, step.session, step.at);
    RequestTouchesItsSession(w.db, config.sessions, step.session, step.at);
  }

  // ----- reauthentications -----

  /**
   The lookup of a reauthentication passed every check: its callback was accepted for this user on this session, its
   token was unexpired, answered the nonce, and gave an authentication time that is neither stale nor in the future, and
   its identity was the user's.
   */
  ghost predicate LookedUp(w: World, step: Step, config: Config, r: AuthRecord) {
    && step.LookUpReauth? && step.acceptance in w.accepted && step.context in w.contexts
    && step.acceptance.stateHash == r.stateHash && step.acceptance.state.purpose == DeletionReauth
    && step.acceptance.state.expectedUser == Some(r.user) && step.acceptance.state.expectedSession == Some(r.session)
    && r.user == step.context.user && r.session == step.context.session
    && r.key == IdentityKey(step.acceptance.provider, step.claims.subject)
    && r.key in w.db.identities && w.db.identities[r.key] == r.user
    && r.nonce == step.claims.nonce && HashOf(r.nonce) == step.acceptance.state.nonceHash
    && step.claims.expiresAt * SECOND > step.validatedAt
    && step.claims.issuedAt * SECOND <= step.validatedAt + config.leeway * SECOND
    && step.claims.authTime == Some(r.authTime) && r.authTime * SECOND <= step.validatedAt + config.leeway * SECOND
    && step.at - r.authTime * SECOND <= config.reauthFreshness * SECOND
  }

  lemma LookupsWereEarned(steps: seq<Step>, config: Config, r: AuthRecord) returns (i: nat)
    requires r in Run(steps, config).lookups
    ensures i < |steps| && LookedUp(Run(steps[..i], config), steps[i], config, r)
  {
    var before, after;
    i, before, after := FirstHeld(steps, config, (w: World) => r in w.lookups);
    LookingUpChecks(before, steps[i], config, r);
  }

  lemma LookingUpChecks(w: World, step: Step, config: Config, r: AuthRecord)
    requires Enabled(w, step, config) && r !in w.lookups && r in Next(w, step, config).lookups
    ensures LookedUp(w, step, config, r)
  {
  }

  // ----- deletions -----

  /**
   Every approved deletion was asked for by a request that had shown the user's password if the user had one, and whose
   session had a fresh enough provider authentication if it had none.
   */
  lemma ApprovalsWereEarned(steps: seq<Step>, config: Config, a: Approval) returns (i: nat)
    requires a in Run(steps, config).approvals
    ensures i < |steps| && steps[i].ApproveDeletion? && steps[i].context == a.context && steps[i].at == a.at
    ensures a.context in Run(steps[..i], config).contexts
    ensures if a.context.passwordHash.Some? then steps[i].verifiedHash == a.context.passwordHash
            else a.context.lastOidcAt.Some? && a.at - a.context.lastOidcAt.value <= config.reauthFreshness * SECOND
  {
    var before, after;
    i, before, after := FirstHeld(steps, config, (w: World) => a in w.approvals);
    ApprovingChecks(before, steps[i], config, a);
  }

  lemma ApprovingChecks(w: World, step: Step, config: Config, a: Approval)
    requires Enabled(w, step, config) && a !in w.approvals && a in Next(w, step, config).approvals
    ensures step.ApproveDeletion? && step.context == a.context && step.at == a.at && a.context in w.contexts
    ensures if a.context.passwordHash.Some? then step.verifiedHash == a.context.passwordHash
            else a.context.lastOidcAt.Some? && a.at - a.context.lastOidcAt.value <= config.reauthFreshness * SECOND
  {
  }

  /** A deletion step for this user: its owner's, once approved, or an administrator's. */
  predicate Deletes(step: Step, user: UserId) {
    || (step.DeleteAccount? && step.approval.context.user == user)
    || (step.Execute? && step.command.AdminDelete? && step.command.user == user)
  }

  predicate IsDeleted(db: Db, user: UserId) {
    user in db.users && db.users[user].deletedAt.Some?
  }

  /** Nobody is deleted but by such a step. */
  lemma DeletionsWereAskedFor(steps: seq<Step>, config: Config, user: UserId) returns (i: nat)
    requires IsDeleted(Run(steps, config).db, user)
    ensures i < |steps| && Deletes(steps[i], user) && !IsDeleted(Run(steps[..i], config).db, user)
    ensures steps[i].DeleteAccount? ==> steps[i].approval in Run(steps[..i], config).approvals
  {
    var before, after;
    i, before, after := FirstHeld(steps, config, (w: World) => IsDeleted(w.db, user));
    DeletingStep(before, steps[i], config, user);
  }

  lemma DeletingStep(w: World, step: Step, config: Config, user: UserId)
    requires Enabled(w, step, config) && !IsDeleted(w.db, user) && IsDeleted(Next(w, step, config).db, user)
    ensures Deletes(step, user) && (step.DeleteAccount? ==> step.approval in w.approvals)
  {
    if step.Execute? {
      CommandDeletes(w.db, step.command, user);
    } else if step.Register? || step.Login? {
      IssuingDeletesNobody(w, step, config, user);
    } else if step.OidcLogin? {
      SignInDeletesNobody(w, step, config, user);
    } else if step.Authenticate? {
      RequestLeavesUsers(w, step.session, step.at, config);
    } else if !step.DeleteAccount? {
      OtherStepsLeaveUsers(w, step, config);
    }
  }

  lemma RequestLeavesUsers(w: World, session: SessionId, at: Time, config: Config)
    ensures Next(w, Authenticate(session, at), config).db.users == w.db.users
  {
    assert AuthenticateTx(w.db, config.sessions, session, at).0.users == w.db.users;
  }

  lemma OtherStepsLeaveUsers(w: World, step: Step, config: Config)
    requires Enabled(w, step, config)
    requires step.CheckPassword? || step.StartOidc? || step.Callback? || step.LookUpReauth? || step.RecordReauth?
          || step.Logout? || step.ApproveDeletion?
    ensures Next(w, step, config).db.users == w.db.users
  {
  }

  lemma IssuingDeletesNobody(w: World, step: Step, config: Config, user: UserId)
    requires Enabled(w, step, config) && (step.Register? || step.Login?) && !IsDeleted(w.db, user)
    ensures !IsDeleted(Next(w, step, config).db, user)
  {
  }

  lemma SignInDeletesNobody(w: World, step: Step, config: Config, user: UserId)
    requires Enabled(w, step, config) && step.OidcLogin? && !IsDeleted(w.db, user)
    ensures !IsDeleted(Next(w, step, config).db, user)
  {
    var tx := OidcLoginTx(w.db, config.sessions, step.provider, step.claims, step.newUser, step.newSession, step.at);
    if tx.Some? {
      OidcLoginKeepsUser(w.db, config.sessions, step.provider, step.claims, step.newUser, step.newSession, step.at);
    }
  }

  lemma CommandDeletes(db: Db, command: Command, user: UserId)
    requires CommandTx(db, command).Some? && !IsDeleted(db, user) && IsDeleted(CommandTx(db, command).value, user)
    ensures command.AdminDelete? && command.user == user
  {
    match command
    case AdminUpdate(u, changes, order, at) => UpdateDeletesNobody(db, u, changes, order, at, user);
    case SeedAdmin(newUser, email, passwordHash, code, granted) =>
      SeedDeletesNobody(db, newUser, email, passwordHash, code, granted, user);
    case _ =>
  }

  lemma UpdateDeletesNobody(db: Db, u: UserId, changes: UserChanges, order: RoleOrder, at: Time, user: UserId)
    requires AdminUpdateTx(db, u, changes, order, at).Some? && !IsDeleted(db, user)
    ensures !IsDeleted(AdminUpdateTx(db, u, changes, order, at).value, user)
  {
  }

  lemma SeedDeletesNobody(db: Db, newUser: UserId, email: string, passwordHash: nat, code: RoleCode,
                          granted: seq<RoleCode>, user: UserId)
    requires SeedAdminTx(db, newUser, email, passwordHash, code, granted).Some? && !IsDeleted(db, user)
    ensures !IsDeleted(SeedAdminTx(db, newUser, email, passwordHash, code, granted).value, user)
  {
  }

  // ----- sessions -----

  /** Some earlier step showed the user's password, while the user was active and not deleted. */
  ghost predicate PasswordShown(steps: seq<Step>, config: Config, user: UserId) {
    exists i :: 0 <= i < |steps| && ShowsPassword(Run(steps[..i], config).db, steps[i], user)
  }

  predicate ShowsPassword(db: Db, step: Step, user: UserId) {
    && step.CheckPassword? && HasEmail(db, user, step.email) && db.users[user].isActive
    && db.users[user].passwordHash.Some? && step.verifiedHash == db.users[user].passwordHash
  }

  lemma ChecksShowPasswords(steps: seq<Step>, config: Config, user: UserId)
    requires user in Run(steps, config).checked
    ensures PasswordShown(steps, config, user)
  {
    var i, before, after := FirstHeld(steps, config, (w: World) => user in w.checked);
    CheckingShows(before, steps[i], config, user);
  }

  lemma CheckingShows(w: World, step: Step, config: Config, user: UserId)
    requires Enabled(w, step, config) && user !in w.checked && user in Next(w, step, config).checked
    ensures ShowsPassword(w.db, step, user)
  {
  }

  /** The step that issued the session: a registration, a login with the password shown, or a linked identity's sign-in. */
  ghost predicate IssuedAt(steps: seq<Step>, config: Config, i: nat, id: SessionId, user: UserId)
    requires i < |steps|
  {
    match steps[i]
    case Register(newUser, _, _, newSession, _) =>
      newSession.id == id && newUser == user && user !in Run(steps[..i], config).db.users
    case Login(loggedIn, newSession, _) =>
      newSession.id == id && loggedIn == user && PasswordShown(steps[..i], config, user)
      && Live(Run(steps[..i], config).db, user)
    case OidcLogin(acceptance, provider, claims, validatedAt, _, newSession, _) =>
      && newSession.id == id
      && Linked(IdentityKey(provider.id, claims.subject), user) in Run(steps[..i + 1], config).links
      && acceptance in Run(steps[..i], config).accepted && acceptance.provider == provider.id
      && TokenIsGood(claims, acceptance, validatedAt, config)
    case _ => false
  }

  /** The token is unexpired, not from the future, and carries the nonce of the sign-in that the callback answers. */
  predicate TokenIsGood(claims: Claims, acceptance: Acceptance, validatedAt: Time, config: Config) {
    && acceptance.state.purpose == LoginPurpose && acceptance.state.nonceHash == HashOf(claims.nonce)
    && validatedAt < claims.expiresAt * SECOND && claims.issuedAt * SECOND <= validatedAt + config.leeway * SECOND
  }

  /** Every session, stored now or ever, was issued to its user by one of these three. */
  lemma SessionsWereEarned(steps: seq<Step>, config: Config, id: SessionId, user: UserId) returns (i: nat)
    requires id in Run(steps, config).owners && Run(steps, config).owners[id] == user
    ensures i < |steps| && IssuedAt(steps, config, i, id, user)
  {
    var before, after;
    i, before, after := FirstHeld(steps, config, (w: World) => id in w.owners && w.owners[id] == user);
    IssuingStep(before, steps[i], config, id, user);
    if steps[i].Login? {
      ChecksShowPasswords(steps[..i], config, user);
    }
  }

  lemma IssuingStep(w: World, step: Step, config: Config, id: SessionId, user: UserId)
    requires Enabled(w, step, config) && !(id in w.owners && w.owners[id] == user)
    requires var owners := Next(w, step, config).owners; id in owners && owners[id] == user
    ensures match step
            case Register(newUser, _, _, newSession, _) => newSession.id == id && newUser == user && user !in w.db.users
            case Login(loggedIn, newSession, _) =>
              newSession.id == id && loggedIn == user && user in w.checked && Live(w.db, user)
            case OidcLogin(acceptance, provider, claims, validatedAt, _, newSession, _) =>
              && newSession.id == id
              && Linked(IdentityKey(provider.id, claims.subject), user) in Next(w, step, config).links
              && acceptance in w.accepted && acceptance.provider == provider.id
              && TokenIsGood(claims, acceptance, validatedAt, config)
            case _ => false
  {
  }

  /** And every stored session is its owner's. */
  lemma StoredSessionsAreOwned(steps: seq<Step>, config: Config, id: SessionId)
    requires id in Run(steps, config).db.sessions
    ensures var w := Run(steps, config); id in w.owners && w.owners[id] == w.db.sessions[id].userId
  {
    RunKeepsReauth(EMPTY, steps, config);
    assert SessionRecorded(Run(steps, config), id, Run(steps, config).db.sessions[id]);
  }

  // ----- revocation is for good -----

  /** The session was issued, and by now revoked or pruned. */
  predicate Ended(w: World, id: SessionId) {
    id in w.owners && (id in w.db.sessions ==> w.db.sessions[id].revokedAt.Some?)
  }

  lemma StepKeepsEnded(w: World, step: Step, config: Config, id: SessionId)
    requires Enabled(w, step, config) && Ended(w, id)
    ensures Ended(Next(w, step, config), id)
  {
    if Next(w, step, config).db != w.db {
      match step
      case Register(_, _, _, _, _) => IssuingKeepsEnded(w, step, config, id);
      case Login(_, _, _) => IssuingKeepsEnded(w, step, config, id);
      case OidcLogin(_, _, _, _, _, _, _) => SignInKeepsEnded(w, step, config, id);
      case Authenticate(session, at) => AuthenticateLeaves(w.db, config.sessions, session, at);
      case DeleteAccount(approval, deletedAt) => DeleteUserLeaves(w.db, approval.context.user, deletedAt, []);
      case Execute(command) => CommandKeepsEnded(w, command, config, id);
      case _ =>
    }
  }

  lemma IssuingKeepsEnded(w: World, step: Step, config: Config, id: SessionId)
    requires Enabled(w, step, config) && Ended(w, id) && (step.Register? || step.Login?)
    requires Next(w, step, config).db != w.db
    ensures Ended(Next(w, step, config), id)
  {
    match step
    case Register(newUser, email, passwordHash, newSession, at) =>
      RegisterIssues(w.db, config.sessions, newUser, email, passwordHash, newSession, at);
    case Login(user, newSession, at) => LoginIssues(w.db, config.sessions, user, newSession, at);
  }

  lemma SignInKeepsEnded(w: World, step: Step, config: Config, id: SessionId)
    requires Enabled(w, step, config) && Ended(w, id) && step.OidcLogin?
    requires Next(w, step, config).db != w.db
    ensures Ended(Next(w, step, config), id)
  {
    OidcLoginLeaves(w.db, config.sessions, step.provider, step.claims, step.newUser, step.newSession, step.at);
  }

  lemma CommandKeepsEnded(w: World, command: Command, config: Config, id: SessionId)
    requires Ended(w, id) && Enabled(w, Execute(command), config) && CommandTx(w.db, command).Some?
    ensures Ended(Next(w, Execute(command), config), id)
  {
    if !command.PruneOidcStates? {
      CommandLeaves(w.db, command);
    }
  }

  /** A session that was signed out, revoked or pruned lets no request in, in any continuation. */
  lemma {:induction false} EndedIsForGood(w: World, steps: seq<Step>, config: Config, id: SessionId, at: Time)
    requires Ended(w, id)
    ensures Ended(RunFrom(w, steps, config), id) && !MayEnter(RunFrom(w, steps, config).db, id, at)
    decreases |steps|
  {
    if steps != [] {
      if Enabled(w, steps[0], config) {
        StepKeepsEnded(w, steps[0], config, id);
      }
      EndedIsForGood(Do(w, steps[0], config), steps[1..], config, id, at);
    }
  }
}
