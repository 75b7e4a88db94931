/**
 What the history of every run shows: each OIDC state is accepted at most once, in time, by the browser and the
 provider it was made for; and nobody without a password deletes an account without a fresh authentication.
 */
module AuthHistory {
  import opened Basics
  import opened SessionExpiry
  import opened AuthDatabase
  import opened AuthTransactions
  import opened AuthSystem

  // ----- OIDC states -----

  /** A stored state is the one that was started under its hash. */
  predicate FromStart(state: OidcState, start: Start) {
    && state.bindingHash == start.bindingHash && state.nonceHash == start.nonceHash
    && S256(state.pkceVerifier) == start.challenge && state.provider == start.provider
    && state.expiresAt == Stored(start.expiresAt)
  }

  /** The callback came back for the start of its state: same provider and browser, strictly before the expiry. */
  predicate AnswersStart(a: Acceptance, start: Start) {
    && a.provider == start.provider && a.bindingHash == start.bindingHash && a.at < start.expiresAt
    && S256(a.state.pkceVerifier) == start.challenge && a.state.nonceHash == start.nonceHash
  }

  /** Started, and by now consumed or pruned: no callback can be accepted for it any more. */
  predicate Spent(w: World, h: Digest) {
    h in w.starts && (h in w.db.oidcStates ==> w.db.oidcStates[h].consumedAt.Some?)
  }

  ghost predicate StatesStarted(w: World) {
    forall h :: h in w.db.oidcStates ==> h in w.starts && FromStart(w.db.oidcStates[h], w.starts[h])
  }

  ghost predicate AcceptancesOk(w: World) {
    forall i :: 0 <= i < |w.accepted| ==>
      var a := w.accepted[i]; Spent(w, a.stateHash) && AnswersStart(a, w.starts[a.stateHash])
  }

  ghost predicate AcceptedOnce(accepted: seq<Acceptance>) {
    forall i, j :: 0 <= i < j < |accepted| ==> accepted[i].stateHash != accepted[j].stateHash
  }

  ghost predicate OidcOk(w: World) {
    StatesStarted(w) && AcceptancesOk(w) && AcceptedOnce(w.accepted)
  }

  // ----- what transactions leave alone -----

  /** Same user, token and authentication time as before, and revoked if it was. */
  predicate SameAuth(db: Db, id: SessionId, s: Session) {
    && id in db.sessions && db.sessions[id].userId == s.userId && db.sessions[id].tokenHash == s.tokenHash
    && db.sessions[id].lastOidcAt == s.lastOidcAt
    && (db.sessions[id].revokedAt.Some? ==> s.revokedAt.Some?)
  }

  ghost predicate SessionsSame(db: Db, after: Db, except: set<SessionId>) {
    forall id :: id in after.sessions && id !in except ==> SameAuth(db, id, after.sessions[id])
  }

  ghost predicate IdentitiesSame(db: Db, after: Db, except: set<IdentityKey>) {
    forall key :: key in after.identities && key !in except ==>
      key in db.identities && after.identities[key] == db.identities[key]
  }

  /** No OIDC state, no new identity, and no change of any session's user or authentication time. */
  ghost predicate LeavesAlone(db: Db, after: Db) {
    after.oidcStates == db.oidcStates && SessionsSame(db, after, {}) && IdentitiesSame(db, after, {})
  }

  lemma DeleteUserLeaves(db: Db, user: UserId, at: Time, rows: seq<Audit>)
    requires DeleteUserTx(db, user, at, rows).Some?
    ensures LeavesAlone(db, DeleteUserTx(db, user, at, rows).value)
  {
  }

  lemma AuthenticateLeaves(db: Db, settings: Settings, id: SessionId, at: Time)
    ensures LeavesAlone(db, AuthenticateTx(db, settings, id, at).0)
  {
  }

  lemma CommandLeaves(db: Db, command: Command)
    requires CommandTx(db, command).Some? && !command.PruneOidcStates?
    ensures LeavesAlone(db, CommandTx(db, command).value)
  {
    match command
    case AdminUpdate(user, changes, order, at) => AdminUpdateLeaves(db, user, changes, order, at);
    case AdminDelete(user, at) => DeleteUserLeaves(db, user, at, [OtherEvent("USER_DELETED_BY_ADMIN")]);
    case _ =>
  }

  lemma AdminUpdateLeaves(db: Db, user: UserId, changes: UserChanges, order: RoleOrder, at: Time)
    requires AdminUpdateTx(db, user, changes, order, at).Some?
    ensures LeavesAlone(db, AdminUpdateTx(db, user, changes, order, at).value)
  {
    var updated := UpdateUser(db, user, changes).value;
    assert updated.sessions == db.sessions && updated.identities == db.identities && updated.oidcStates == db.oidcStates;
  }

  /** The session just issued has no authentication time yet; nothing else changes. */
  lemma ReplaceAuthSessionLeaves(db: Db, settings: Settings, user: UserId, newSession: NewSession)
    ensures var after := ReplaceAuthSession(db, settings, user, newSession);
            && after.oidcStates == db.oidcStates && after.identities == db.identities
            && SessionsSame(db, after, {newSession.id})
            && newSession.id in after.sessions && after.sessions[newSession.id].userId == user
            && after.sessions[newSession.id].lastOidcAt == None
  {
  }

  /** The step's new session is its user's and has no authentication time. */
  ghost predicate Issues(db: Db, after: Db, user: UserId, id: SessionId) {
    && after.oidcStates == db.oidcStates && IdentitiesSame(db, after, {}) && SessionsSame(db, after, {id})
    && id in after.sessions && after.sessions[id].userId == user && after.sessions[id].lastOidcAt == None
  }

  lemma RegisterIssues(db: Db, settings: Settings, id: UserId, email: string, passwordHash: nat,
                       newSession: NewSession, at: Time)
    requires RegisterTx(db, settings, id, email, passwordHash, newSession, at).Some?
    ensures Issues(db, RegisterTx(db, settings, id, email, passwordHash, newSession, at).value, id, newSession.id)
  {
    var created := CreateUser(db, id, email, Some(passwordHash), true).value;
    ReplaceAuthSessionLeaves(RecordUserLogin(created, id, at).value, settings, id, newSession);
  }

  lemma LoginIssues(db: Db, settings: Settings, user: UserId, newSession: NewSession, at: Time)
    requires LoginTx(db, settings, user, newSession, at).Some?
    ensures Issues(db, LoginTx(db, settings, user, newSession, at).value, user, newSession.id)
  {
    ReplaceAuthSessionLeaves(RecordUserLogin(db, user, at).value, settings, user, newSession);
  }

  /** An OIDC sign-in links at most its own identity, and puts the claimed time on its own session only. */
  lemma OidcLoginLeaves(db: Db, settings: Settings, provider: Provider, claims: Claims, newUser: UserId,
                        newSession: NewSession, at: Time)
    requires OidcLoginTx(db, settings, provider, claims, newUser, newSession, at).Some?
    ensures var r := OidcLoginTx(db, settings, provider, claims, newUser, newSession, at).value;
            var key := IdentityKey(provider.id, claims.subject);
            && r.db.oidcStates == db.oidcStates
            && IdentitiesSame(db, r.db, {key}) && (key in r.db.identities ==> r.db.identities[key] == r.user)
            && SessionsSame(db, r.db, {newSession.id})
            && newSession.id in r.db.sessions && r.db.sessions[newSession.id].userId == r.user
            && r.db.sessions[newSession.id].lastOidcAt
               == if claims.authTime == None then None else Some(Stored(claims.authTime.value * SECOND))
  {
    var resolved := ResolveLogin(db, provider, claims, newUser).value;
    var recorded := RecordUserLogin(resolved.db, resolved.user, at).value;
    ReplaceAuthSessionLeaves(recorded, settings, resolved.user, newSession);
  }

  predicate TouchesStates(step: Step) {
    step.StartOidc? || step.Callback? || (step.Execute? && step.command.PruneOidcStates?)
  }

  /** Only starting, calling back and pruning touch the OIDC states. */
  lemma OtherStepsLeaveStates(w: World, step: Step, config: Config)
    requires Enabled(w, step, config) && !TouchesStates(step)
    ensures var after := Next(w, step, config);
            after.db.oidcStates == w.db.oidcStates && after.starts == w.starts && after.accepted == w.accepted
  {
    if Next(w, step, config).db != w.db {
      match step
      case Register(newUser, email, passwordHash, newSession, at) =>
        RegisterIssues(w.db, config.sessions, newUser, email, passwordHash, newSession, at);
      case Login(user, newSession, at) => LoginIssues(w.db, config.sessions, user, newSession, at);
      case OidcLogin(_, provider, claims, _, newUser, newSession, at) =>
        OidcLoginLeaves(w.db, config.sessions, provider, claims, newUser, newSession, at);
      case Authenticate(session, at) => AuthenticateLeaves(w.db, config.sessions, session, at);
      case DeleteAccount(approval, deletedAt) => DeleteUserLeaves(w.db, approval.context.user, deletedAt, []);
      case Execute(command) => CommandLeaves(w.db, command);
      case _ =>
    }
  }

  /** The hash of a new state is fresh, so no acceptance can be of it. */
  lemma StartKeepsOidc(w: World, step: Step, config: Config)
    requires OidcOk(w) && Enabled(w, step, config) && step.StartOidc?
    ensures OidcOk(Next(w, step, config))
  {
    var after := Next(w, step, config);
    forall i | 0 <= i < |after.accepted|
      ensures Spent(after, after.accepted[i].stateHash)
           && AnswersStart(after.accepted[i], after.starts[after.accepted[i].stateHash])
    {
      assert Spent(w, w.accepted[i].stateHash);
    }
  }

  /** What is accepted was not spent before, hence not accepted before, and is spent now. */
  lemma CallbackKeepsOidc(w: World, step: Step, config: Config)
    requires OidcOk(w) && step.Callback?
    ensures OidcOk(Next(w, step, config))
  {
    var after := Next(w, step, config);
    if after.accepted != w.accepted {
      assert !Spent(w, step.stateHash);
      assert FromStart(w.db.oidcStates[step.stateHash], w.starts[step.stateHash]);
    }
    forall i | 0 <= i < |after.accepted|
      ensures Spent(after, after.accepted[i].stateHash)
           && AnswersStart(after.accepted[i], after.starts[after.accepted[i].stateHash])
    {
      if i < |w.accepted| {
        assert Spent(w, w.accepted[i].stateHash);
      }
    }
  }

  lemma StepKeepsOidc(w: World, step: Step, config: Config)
    requires OidcOk(w) && Enabled(w, step, config)
    ensures OidcOk(Next(w, step, config))
  {
    match step
    case StartOidc(_, _, _, _, _, _, _, _) => StartKeepsOidc(w, step, config);
    case Callback(_, _, _, _) => CallbackKeepsOidc(w, step, config);
    case Execute(PruneOidcStates(_)) =>
    case _ => OtherStepsLeaveStates(w, step, config);
  }

  lemma {:induction false} RunKeepsOidc(w: World, steps: seq<Step>, config: Config)
    requires OidcOk(w)
    ensures OidcOk(RunFrom(w, steps, config))
    decreases |steps|
  {
    if steps != [] {
      if Enabled(w, steps[0], config) {
        StepKeepsOidc(w, steps[0], config);
      }
      RunKeepsOidc(Do(w, steps[0], config), steps[1..], config);
    }
  }

  /** Over every run, with pruning at any time, no state is accepted twice, by any kind of callback. */
  lemma EachStateIsAcceptedOnce(steps: seq<Step>, config: Config, i: nat, j: nat)
    requires i < j < |Run(steps, config).accepted|
    ensures Run(steps, config).accepted[i].stateHash != Run(steps, config).accepted[j].stateHash
  {
    RunKeepsOidc(EMPTY, steps, config);
  }

  /** Every acceptance answers a start; the verifier it will show the provider has the challenge sent there. */
  lemma AcceptanceAnswersItsStart(steps: seq<Step>, config: Config, i: nat)
    requires i < |Run(steps, config).accepted|
    ensures var w := Run(steps, config);
            w.accepted[i].stateHash in w.starts && AnswersStart(w.accepted[i], w.starts[w.accepted[i].stateHash])
  {
    RunKeepsOidc(EMPTY, steps, config);
  }

  function AcceptedFor(accepted: seq<Acceptance>, h: Digest): seq<Acceptance> {
    if accepted == [] then []
    else
      var n := |accepted| - 1;
      AcceptedFor(accepted[..n], h) + if accepted[n].stateHash == h then [accepted[n]] else []
  }

  lemma SpentStepAcceptsNothing(w: World, step: Step, config: Config, h: Digest)
    requires Enabled(w, step, config) && Spent(w, h)
    ensures Spent(Next(w, step, config), h)
    ensures AcceptedFor(Next(w, step, config).accepted, h) == AcceptedFor(w.accepted, h)
  {
    if !TouchesStates(step) {
      OtherStepsLeaveStates(w, step, config);
    } else {
      var after := Next(w, step, config).accepted;
      if after != w.accepted {
        assert after[..|after| - 1] == w.accepted;
      }
    }
  }

  /** A state consumed once, even under the wrong provider, or pruned, is never accepted afterwards. */
  lemma {:induction false} SpentIsForGood(w: World, steps: seq<Step>, config: Config, h: Digest)
    requires OidcOk(w) && Spent(w, h)
    ensures AcceptedFor(RunFrom(w, steps, config).accepted, h) == AcceptedFor(w.accepted, h)
    decreases |steps|
  {
    if steps != [] {
      if Enabled(w, steps[0], config) {
        StepKeepsOidc(w, steps[0], config);
        SpentStepAcceptsNothing(w, steps[0], config, h);
      }
      SpentIsForGood(Do(w, steps[0], config), steps[1..], config, h);
    }
  }

  // ----- authentication times -----

  /** The time was recorded on the session by a callback: one record says so. */
  ghost predicate Recorded(records: set<AuthRecord>, session: SessionId, user: UserId, at: Time) {
    exists r :: r in records && Says(r, session, user, at)
  }

  predicate Says(r: AuthRecord, session: SessionId, user: UserId, at: Time) {
    r.session == session && r.user == user && Stored(r.authTime * SECOND) == at
  }

  /**
   The acceptance a record came from: of the identity's provider, with the nonce of the token that gave the time,
   and started for this user and session if it was a reauthentication.
   */
  predicate Backs(a: Acceptance, r: AuthRecord) {
    && a.stateHash == r.stateHash && a.provider == r.key.provider && a.state.nonceHash == HashOf(r.nonce)
    && (a.state.purpose == DeletionReauth ==>
          a.state.expectedUser == Some(r.user) && a.state.expectedSession == Some(r.session))
  }

  /** A record names the session's owner, an identity that was linked to it, and an accepted callback. */
  ghost predicate RecordOk(w: World, r: AuthRecord) {
    && r.session in w.owners && w.owners[r.session] == r.user
    && Linked(r.key, r.user) in w.links
    && exists i :: 0 <= i < |w.accepted| && Backs(w.accepted[i], r)
  }

  ghost predicate RecordsOk(w: World) {
    forall r :: r in w.lookups + w.records ==> RecordOk(w, r)
  }

  ghost predicate IdentitiesLinked(w: World) {
    forall key :: key in w.db.identities ==> Linked(key, w.db.identities[key]) in w.links
  }

  ghost predicate SessionRecorded(w: World, id: SessionId, s: Session) {
    && id in w.owners && w.owners[id] == s.userId
    && (s.lastOidcAt.Some? ==> Recorded(w.records, id, s.userId, s.lastOidcAt.value))
  }

  ghost predicate SessionsRecorded(w: World) {
    forall id :: id in w.db.sessions ==> SessionRecorded(w, id, w.db.sessions[id])
  }

  ghost predicate ContextRecorded(w: World, c: Context) {
    && c.session in w.owners && w.owners[c.session] == c.user
    && (c.lastOidcAt.Some? ==> Recorded(w.records, c.session, c.user, c.lastOidcAt.value))
  }

  ghost predicate ContextsRecorded(w: World) {
    forall c :: c in w.contexts ==> ContextRecorded(w, c)
  }

  predicate ApprovedRightly(a: Approval, config: Config) {
    a.context.passwordHash == None ==>
      a.context.lastOidcAt.Some? && a.at - a.context.lastOidcAt.value <= config.reauthFreshness * SECOND
  }

  ghost predicate ApprovalsOk(w: World, config: Config) {
    forall a :: a in w.approvals ==> a.context in w.contexts && ApprovedRightly(a, config)
  }

  ghost predicate ReauthOk(w: World, config: Config) {
    && RecordsOk(w) && IdentitiesLinked(w) && SessionsRecorded(w) && ContextsRecorded(w) && ApprovalsOk(w, config)
  }

  /** Histories only grow, and a session keeps its owner. */
  ghost predicate Grows(w: World, after: World) {
    && w.accepted <= after.accepted && w.links <= after.links && w.records <= after.records
    && (forall id :: id in w.owners ==> id in after.owners && after.owners[id] == w.owners[id])
  }

  lemma StepGrows(w: World, step: Step, config: Config)
    requires Enabled(w, step, config)
    ensures Grows(w, Next(w, step, config))
  {
  }

  lemma GrowingKeepsRecord(w: World, after: World, r: AuthRecord)
    requires Grows(w, after) && RecordOk(w, r)
    ensures RecordOk(after, r)
  {
    var i :| 0 <= i < |w.accepted| && Backs(w.accepted[i], r);
    assert after.accepted[i] == w.accepted[i];
  }

  /** Facts that were right stay right, and what is new is right too. */
  lemma StillReauthOk(w: World, after: World, config: Config)
    requires ReauthOk(w, config) && Grows(w, after)
    requires forall r :: r in after.lookups + after.records ==> r in w.lookups + w.records || RecordOk(after, r)
    requires forall key :: key in after.db.identities ==>
               (key in w.db.identities && after.db.identities[key] == w.db.identities[key])
               || Linked(key, after.db.identities[key]) in after.links
    requires forall id :: id in after.db.sessions ==>
               SameAuth(w.db, id, after.db.sessions[id]) || SessionRecorded(after, id, after.db.sessions[id])
    requires forall c :: c in after.contexts ==> c in w.contexts || ContextRecorded(after, c)
    requires w.contexts <= after.contexts
    requires forall a :: a in after.approvals ==>
               a in w.approvals || (a.context in w.contexts && ApprovedRightly(a, config))
    ensures ReauthOk(after, config)
  {
    forall r | r in after.lookups + after.records ensures RecordOk(after, r) {
      if r in w.lookups + w.records {
        GrowingKeepsRecord(w, after, r);
      }
    }
    forall id | id in after.db.sessions ensures SessionRecorded(after, id, after.db.sessions[id]) {
      if SameAuth(w.db, id, after.db.sessions[id]) {
        assert SessionRecorded(w, id, w.db.sessions[id]);
      }
    }
    forall c | c in after.contexts ensures ContextRecorded(after, c) {
      if c in w.contexts {
        assert ContextRecorded(w, c);
      }
    }
  }

  lemma IssueKeepsReauth(w: World, step: Step, config: Config)
    requires ReauthOk(w, config) && Enabled(w, step, config) && (step.Register? || step.Login?)
    requires Grows(w, Next(w, step, config))
    ensures ReauthOk(Next(w, step, config), config)
  {
    match step {
      case Register(newUser, email, passwordHash, newSession, at) =>
        if RegisterTx(w.db, config.sessions, newUser, email, passwordHash, newSession, at).Some? {
          RegisterIssues(w.db, config.sessions, newUser, email, passwordHash, newSession, at);
        }
      case Login(user, newSession, at) =>
        if LoginTx(w.db, config.sessions, user, newSession, at).Some? {
          LoginIssues(w.db, config.sessions, user, newSession, at);
        }
    }
    StillReauthOk(w, Next(w, step, config), config);
  }

  /** Steps that record nothing and issue no session. */
  lemma QuietStepKeepsReauth(w: World, step: Step, config: Config)
    requires ReauthOk(w, config) && Enabled(w, step, config) && Grows(w, Next(w, step, config))
    requires step.CheckPassword? || step.StartOidc? || step.Callback? || step.Logout? || step.ApproveDeletion?
          || step.DeleteAccount? || step.Execute?
    ensures ReauthOk(Next(w, step, config), config)
  {
    if step.DeleteAccount? && Next(w, step, config).db != w.db {
      DeleteUserLeaves(w.db, step.approval.context.user, step.deletedAt, []);
    } else if step.Execute? && CommandTx(w.db, step.command).Some? && !step.command.PruneOidcStates? {
      CommandLeaves(w.db, step.command);
    }
    StillReauthOk(w, Next(w, step, config), config);
  }

  lemma StepKeepsReauth(w: World, step: Step, config: Config)
    requires ReauthOk(w, config) && Enabled(w, step, config)
    ensures ReauthOk(Next(w, step, config), config)
  {
    StepGrows(w, step, config);
    match step
    case Register(_, _, _, _, _) => IssueKeepsReauth(w, step, config);
    case Login(_, _, _) => IssueKeepsReauth(w, step, config);
    case OidcLogin(_, _, _, _, _, _, _) => OidcLoginKeepsReauth(w, step, config);
    case LookUpReauth(_, _, _, _, _) => LookUpKeepsReauth(w, step, config);
    case RecordReauth(lookup) => RecordKeepsReauth(w, lookup, config);
    case Authenticate(session, at) => AuthenticateKeepsReauth(w, session, at, config);
    case _ => QuietStepKeepsReauth(w, step, config);
  }

  lemma OidcLoginKeepsReauth(w: World, step: Step, config: Config)
    requires ReauthOk(w, config) && Enabled(w, step, config) && step.OidcLogin? && Grows(w, Next(w, step, config))
    ensures ReauthOk(Next(w, step, config), config)
  {
    var tx := OidcLoginTx(w.db, config.sessions, step.provider, step.claims, step.newUser, step.newSession, step.at);
    if tx == None {
      assert Next(w, step, config) == w;
    } else {
      OidcLoginLeaves(w.db, config.sessions, step.provider, step.claims, step.newUser, step.newSession, step.at);
      NewSessionIsRecorded(w, step, config, tx.value.user);
      StillReauthOk(w, Next(w, step, config), config);
    }
  }

  /** The session an OIDC sign-in issues has its authentication time from that sign-in's record. */
  lemma NewSessionIsRecorded(w: World, step: Step, config: Config, user: UserId)
    requires Enabled(w, step, config) && step.OidcLogin?
    requires var tx := OidcLoginTx(w.db, config.sessions, step.provider, step.claims, step.newUser, step.newSession, step.at);
             tx.Some? && tx.value.user == user
    ensures var after := Next(w, step, config);
            && (forall r :: r in after.records ==> r in w.records || RecordOk(after, r))
            && step.newSession.id in after.db.sessions
            && SessionRecorded(after, step.newSession.id, after.db.sessions[step.newSession.id])
  {
    var after := Next(w, step, config);
    OidcLoginLeaves(w.db, config.sessions, step.provider, step.claims, step.newUser, step.newSession, step.at);
    if step.claims.authTime.Some? {
      var key := IdentityKey(step.provider.id, step.claims.subject);
      var r := AuthRecord(step.newSession.id, user, key, step.claims.authTime.value,
                          step.claims.nonce, step.acceptance.stateHash);
      var i :| 0 <= i < |w.accepted| && w.accepted[i] == step.acceptance;
      assert Backs(after.accepted[i], r);
      assert r in after.records && Says(r, step.newSession.id, user, Stored(r.authTime * SECOND));
    }
  }

  lemma LookUpKeepsReauth(w: World, step: Step, config: Config)
    requires ReauthOk(w, config) && Enabled(w, step, config) && step.LookUpReauth? && Grows(w, Next(w, step, config))
    ensures ReauthOk(Next(w, step, config), config)
  {
    var LookUpReauth(acceptance, context, claims, _, _) := step;
    var after := Next(w, step, config);
    var r := AuthRecord(context.session, context.user, IdentityKey(acceptance.provider, claims.subject),
                        claims.authTime.value, claims.nonce, acceptance.stateHash);
    assert ContextRecorded(w, context);
    var i :| 0 <= i < |w.accepted| && w.accepted[i] == acceptance;
    assert Backs(after.accepted[i], r);
    assert RecordOk(after, r);
    StillReauthOk(w, after, config);
  }

  lemma RecordKeepsReauth(w: World, lookup: AuthRecord, config: Config)
    requires ReauthOk(w, config) && Enabled(w, RecordReauth(lookup), config)
    requires Grows(w, Next(w, RecordReauth(lookup), config))
    ensures ReauthOk(Next(w, RecordReauth(lookup), config), config)
  {
    var after := Next(w, RecordReauth(lookup), config);
    assert RecordOk(w, lookup);
    if lookup.session in w.db.sessions {
      assert SessionRecorded(w, lookup.session, w.db.sessions[lookup.session]);
      assert lookup in after.records && Says(lookup, lookup.session, lookup.user, Stored(lookup.authTime * SECOND));
      assert SessionRecorded(after, lookup.session, after.db.sessions[lookup.session]);
    }
    StillReauthOk(w, after, config);
  }

  lemma AuthenticateKeepsReauth(w: World, session: SessionId, at: Time, config: Config)
    requires ReauthOk(w, config) && Grows(w, Next(w, Authenticate(session, at), config))
    ensures ReauthOk(Next(w, Authenticate(session, at), config), config)
  {
    var after := Next(w, Authenticate(session, at), config);
    AuthenticateLeaves(w.db, config.sessions, session, at);
    if AuthenticateTx(w.db, config.sessions, session, at).1 {
      assert SameAuth(w.db, session, after.db.sessions[session]);
      assert SessionRecorded(w, session, w.db.sessions[session]);
    }
    StillReauthOk(w, after, config);
  }

  lemma {:induction false} RunKeepsReauth(w: World, steps: seq<Step>, config: Config)
    requires ReauthOk(w, config)
    ensures ReauthOk(RunFrom(w, steps, config), config)
    decreases |steps|
  {
    if steps != [] {
      if Enabled(w, steps[0], config) {
        StepKeepsReauth(w, steps[0], config);
      }
      RunKeepsReauth(Do(w, steps[0], config), steps[1..], config);
    }
  }

  /**
   Whenever a deletion of an account without a password can go ahead, a callback accepted before had recorded, on
   the very session of the deletion, an authentication time no older than the limit when the deletion was checked,
   for an identity that was linked to the user; a reauthentication was started for that user on that session.
   */
  lemma DeletionNeedsFreshAuthentication(steps: seq<Step>, config: Config, approval: Approval, deletedAt: Time)
    requires Enabled(Run(steps, config), DeleteAccount(approval, deletedAt), config)
    requires approval.context.passwordHash == None
    ensures exists r :: FreshRecord(Run(steps, config), r, approval, config)
  {
    var w := Run(steps, config);
    RunKeepsOidc(EMPTY, steps, config);
    RunKeepsReauth(EMPTY, steps, config);
    assert ContextRecorded(w, approval.context);
    var r :| r in w.records && Says(r, approval.context.session, approval.context.user, approval.context.lastOidcAt.value);
    WholeSecondsAreStored(r.authTime);
    assert r in w.lookups + w.records;
    assert RecordOk(w, r);
    var i :| 0 <= i < |w.accepted| && Backs(w.accepted[i], r);
    assert Spent(w, w.accepted[i].stateHash) && Answered(w, w.accepted[i]);
    assert FreshRecord(w, r, approval, config);
  }

  /** The record that gave the approved context its authentication time, with all that stands behind it. */
  ghost predicate FreshRecord(w: World, r: AuthRecord, approval: Approval, config: Config) {
    && r in w.records && r.session == approval.context.session && r.user == approval.context.user
    && approval.context.lastOidcAt == Some(r.authTime * SECOND)
    && approval.at - r.authTime * SECOND <= config.reauthFreshness * SECOND
    && Linked(r.key, r.user) in w.links
    && exists i :: 0 <= i < |w.accepted| && Backs(w.accepted[i], r) && Answered(w, w.accepted[i])
  }

  predicate Answered(w: World, a: Acceptance) {
    a.stateHash in w.starts && AnswersStart(a, w.starts[a.stateHash])
  }

  /** The provider's time is a whole number of seconds, so storing it loses nothing. */
  lemma WholeSecondsAreStored(seconds: int)
    ensures Stored(seconds * SECOND) == seconds * SECOND
  {
  }
}
