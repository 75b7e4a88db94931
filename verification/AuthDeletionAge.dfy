/**
 How old the authentication behind a deletion without a password is when the account is deleted.  The code checks the
 age before it reads the deletion's own time, so the limit is kept at the check; this says exactly when it is still
 kept at the deletion, and that every larger age within the delay occurs.
 */
module AuthDeletionAge {
  import opened Basics
  import opened SessionExpiry
  import opened AuthDatabase
  import opened AuthTransactions
  import opened AuthSystem
  import opened AuthHistory

  /** What the check left of the limit. */
  function Remaining(approval: Approval, config: Config): int
    requires approval.context.lastOidcAt.Some?
  {
    config.reauthFreshness * SECOND - (approval.at - approval.context.lastOidcAt.value)
  }

  /**
   A deletion that can go ahead without a password has the record that its context carries.  At the deletion the
   authentication is within the limit if and only if the time since the check is within what the check left; it is
   never older than the limit plus that time.
   */
  lemma AgeAtDeletion(steps: seq<Step>, config: Config, approval: Approval, deletedAt: Time)
    requires Enabled(Run(steps, config), DeleteAccount(approval, deletedAt), config)
    requires approval.context.passwordHash == None
    ensures approval.context.lastOidcAt.Some? && Remaining(approval, config) >= 0
    ensures exists r :: FreshRecord(Run(steps, config), r, approval, config)
    ensures forall r :: FreshRecord(Run(steps, config), r, approval, config) ==>
              && (deletedAt - r.authTime * SECOND <= config.reauthFreshness * SECOND
                  <==> deletedAt - approval.at <= Remaining(approval, config))
              && deletedAt - r.authTime * SECOND <= config.reauthFreshness * SECOND + (deletedAt - approval.at)
  {
    DeletionNeedsFreshAuthentication(steps, config, approval, deletedAt);
  }

  // ----- a deletion that comes late -----

  /** What the settings validators demand. */
  predicate ValidConfig(config: Config) {
    ValidSettings(config.sessions) && config.reauthFreshness >= 1 && config.stateTtl >= 1 && config.leeway >= 1
  }

  const IDP := Provider("idp", true, true, Auto)

  /** The moment at which everything but the deletion happens: as late after the authentication at 0 as allowed. */
  function Moment(config: Config): Time {
    config.reauthFreshness * SECOND
  }

  function TheState(config: Config): OidcState {
    NewState(1, HashOf(2), HashOf(3), "idp", LoginPurpose, None, Moment(config) + config.stateTtl * SECOND)
  }

  function TheAcceptance(config: Config): Acceptance {
    Acceptance(HashOf(0), "idp", HashOf(2), Moment(config), TheState(config))
  }

  function TheClaims(config: Config): Claims {
    Claims("subject", Some("address"), true, 3, config.reauthFreshness, config.reauthFreshness + 1, Some(0))
  }

  const THE_CONTEXT := Context(0, 0, None, Some(0))

  function Starting(config: Config): Step {
    StartOidc(HashOf(0), 1, HashOf(2), HashOf(3), "idp", LoginPurpose, None, Moment(config))
  }

  function Returning(config: Config): Step {
    Callback("idp", HashOf(0), HashOf(2), Moment(config))
  }

  function SigningIn(config: Config): Step {
    OidcLogin(TheAcceptance(config), IDP, TheClaims(config), Moment(config), 0,
              NewSession(0, HashOf(4), None, Moment(config)), Moment(config))
  }

  /** A user signs in for the first time, sends a request and has a deletion approved. */
  function LateRun(config: Config): seq<Step> {
    [Starting(config)] + ([Returning(config)] + ([SigningIn(config)]
    + ([Authenticate(0, Moment(config))] + [ApproveDeletion(THE_CONTEXT, None, Moment(config))])))
  }

  lemma RunCons(w: World, step: Step, rest: seq<Step>, config: Config)
    ensures RunFrom(w, [step] + rest, config) == RunFrom(Do(w, step, config), rest, config)
  {
    assert ([step] + rest)[1..] == rest;
  }

  ghost predicate NoUsersYet(w: World) {
    w.db.users == map[] && w.db.sessions == map[] && w.db.identities == map[] && w.owners == map[]
  }

  lemma Started(config: Config) returns (w: World)
    requires ValidConfig(config)
    ensures w == Do(EMPTY, Starting(config), config)
    ensures NoUsersYet(w) && w.accepted == [] && w.db.oidcStates == map[HashOf(0) := TheState(config)]
  {
    w := Do(EMPTY, Starting(config), config);
  }

  lemma Returned(before: World, config: Config) returns (w: World)
    requires ValidConfig(config)
    requires NoUsersYet(before) && before.accepted == [] && before.db.oidcStates == map[HashOf(0) := TheState(config)]
    ensures w == Do(before, Returning(config), config)
    ensures NoUsersYet(w) && w.accepted == [TheAcceptance(config)]
  {
    WholeSecondsAreStored(config.reauthFreshness + config.stateTtl);
    w := Do(before, Returning(config), config);
  }

  lemma SignedIn(before: World, config: Config) returns (w: World)
    requires ValidConfig(config) && NoUsersYet(before) && before.accepted == [TheAcceptance(config)]
    ensures w == Do(before, SigningIn(config), config)
    ensures 0 in w.db.users && w.db.users[0].passwordHash == None && w.db.users[0].isActive && Live(w.db, 0)
    ensures 0 in w.db.sessions
    ensures var s := w.db.sessions[0];
            && s.userId == 0 && s.revokedAt == None && s.lastOidcAt == Some(0)
            && s.times == Issued(config.sessions, Moment(config))
  {
    assert TheAcceptance(config) in before.accepted;
    assert FindByEmail(before.db, "address") == None;
    assert TokenAccepted(TheClaims(config), HashOf(3), false, config.leeway, Moment(config));
    w := Do(before, SigningIn(config), config);
  }

  lemma Authenticated(before: World, config: Config) returns (w: World)
    requires ValidConfig(config) && Live(before.db, 0) && 0 in before.db.sessions
    requires before.db.users[0].passwordHash == None && before.db.users[0].isActive
    requires var s := before.db.sessions[0];
             && s.userId == 0 && s.revokedAt == None && s.lastOidcAt == Some(0)
             && s.times == Issued(config.sessions, Moment(config))
    ensures w == Do(before, Authenticate(0, Moment(config)), config)
    ensures THE_CONTEXT in w.contexts
  {
    StoredExpiry(config.sessions, Moment(config), Moment(config));
    WholeSecondsAreStored(config.reauthFreshness);
    assert IsActive(before.db.sessions[0], Moment(config));
    w := Do(before, Authenticate(0, Moment(config)), config);
  }

  lemma Approved(before: World, config: Config) returns (w: World)
    requires THE_CONTEXT in before.contexts
    ensures w == Do(before, ApproveDeletion(THE_CONTEXT, None, Moment(config)), config)
    ensures Approval(THE_CONTEXT, Moment(config)) in w.approvals
  {
    w := Do(before, ApproveDeletion(THE_CONTEXT, None, Moment(config)), config);
  }

  lemma LateRunApproves(config: Config)
    requires ValidConfig(config)
    ensures Approval(THE_CONTEXT, Moment(config)) in Run(LateRun(config), config).approvals
  {
    var approving := [ApproveDeletion(THE_CONTEXT, None, Moment(config))];
    var authenticating := [Authenticate(0, Moment(config))] + approving;
    var signingIn := [SigningIn(config)] + authenticating;
    var w1 := Started(config);
    RunCons(EMPTY, Starting(config), [Returning(config)] + signingIn, config);
    var w2 := Returned(w1, config);
    RunCons(w1, Returning(config), signingIn, config);
    var w3 := SignedIn(w2, config);
    RunCons(w2, SigningIn(config), authenticating, config);
    var w4 := Authenticated(w3, config);
    RunCons(w3, Authenticate(0, Moment(config)), approving, config);
    var w5 := Approved(w4, config);
    RunCons(w4, approving[0], [], config);
    assert approving == [approving[0]] + [];
  }

  /**
   The bound is reached, so the limit is not kept at the deletion: for all valid settings and every delay there is a
   run after which a deletion without a password can go ahead, that delay after its check, on an authentication that
   is older than the limit by exactly the delay.
   */
  lemma DeletionCanComeLate(config: Config, delay: nat)
    requires ValidConfig(config)
    ensures var w, approval := Run(LateRun(config), config), Approval(THE_CONTEXT, Moment(config));
            var deletedAt := approval.at + delay;
            && Enabled(w, DeleteAccount(approval, deletedAt), config) && approval.context.passwordHash == None
            && exists r :: FreshRecord(w, r, approval, config)
                        && deletedAt - r.authTime * SECOND == config.reauthFreshness * SECOND + delay
  {
    var w, approval := Run(LateRun(config), config), Approval(THE_CONTEXT, Moment(config));
    LateRunApproves(config);
    AgeAtDeletion(LateRun(config), config, approval, approval.at + delay);
    var r :| FreshRecord(w, r, approval, config);
    assert approval.at + delay - r.authTime * SECOND == config.reauthFreshness * SECOND + delay;
  }
}
