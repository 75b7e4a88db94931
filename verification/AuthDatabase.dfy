/**
 The auth tables as values, the changes the repositories make to them, and the invariants every change keeps.
 User and session ids, tokens and hashes are fresh where the code draws them; a hash is an injective function.
 */
module AuthDatabase {
  import opened Basics
  import opened SessionExpiry

  type UserId = nat
  type SessionId = nat
  type RoleCode = string

  /** SHA-256 of a random token. */
  datatype Digest = HashOf(token: nat)

  datatype User = User(email: string, passwordHash: Option<nat>, isActive: bool,
                       deletedAt: Option<Time>, lastLoggedInAt: Option<Time>)

  datatype Session = Session(userId: UserId, tokenHash: Digest, times: Times,
                             revokedAt: Option<Time>, lastOidcAt: Option<Time>)

  datatype IdentityKey = IdentityKey(provider: string, subject: string)

  datatype RoleRow = RoleRow(user: UserId, code: RoleCode)

  datatype Purpose = LoginPurpose | DeletionReauth

  datatype OidcState = OidcState(bindingHash: Digest, nonceHash: Digest, pkceVerifier: nat, provider: string,
                                 purpose: Purpose, expectedUser: Option<UserId>, expectedSession: Option<SessionId>,
                                 expiresAt: Time, consumedAt: Option<Time>)

  /** Audit rows by what they mean here; every other event is one of the rest. */
  datatype Audit =
    | RoleGranted(target: UserId, code: RoleCode)
    | RoleRevoked(target: UserId, code: RoleCode)
    | UserMarkedDeleted(user: UserId)
    | OtherEvent(name: string)

  /** Users by id, identities by their unique key, OIDC states by their unique state hash. */
  datatype Db = Db(users: map<UserId, User>, sessions: map<SessionId, Session>,
                   identities: map<IdentityKey, UserId>, roles: set<RoleRow>,
                   oidcStates: map<Digest, OidcState>, audit: seq<Audit>)

  const EMPTY_DB := Db(map[], map[], map[], {}, map[], [])

  predicate Live(db: Db, user: UserId) {
    user in db.users && db.users[user].deletedAt == None
  }

  predicate HasEmail(db: Db, user: UserId, email: string) {
    Live(db, user) && db.users[user].email == email
  }

  /** `find_user_by_email`: the user that is not deleted and has this (normalized) address. */
  ghost function FindByEmail(db: Db, email: string): (found: Option<UserId>)
    ensures found.Some? ==> HasEmail(db, found.value, email)
    ensures found == None ==> forall user :: !HasEmail(db, user, email)
  {
    if user: UserId :| HasEmail(db, user, email) then Some(user) else None
  }

  // ----- changes to one table -----

  function PutUser(db: Db, id: UserId, user: User): Db {
    db.(users := db.users[id := user])
  }

  function PutSession(db: Db, id: SessionId, session: Session): Db {
    db.(sessions := db.sessions[id := session])
  }

  function Revoked(session: Session, at: Time): Session {
    session.(revokedAt := Some(Stored(at)))
  }

  /** `revoke_sessions_for_user`: the unrevoked sessions of the user. */
  function RevokeSessionsOf(db: Db, user: UserId, at: Time): Db {
    db.(sessions := map id | id in db.sessions ::
                      var s := db.sessions[id];
                      if s.userId == user && s.revokedAt == None then Revoked(s, at) else s)
  }

  /** The active session with this token, if any, is revoked; the token hash is unique among sessions. */
  function RevokeActiveByToken(db: Db, tokenHash: Digest, at: Time): Db {
    db.(sessions := map id | id in db.sessions ::
                      var s := db.sessions[id];
                      if s.tokenHash == tokenHash && IsActive(s, at) then Revoked(s, at) else s)
  }

  predicate IsActive(s: Session, at: Time) {
    s.revokedAt == None && Active(s.times, at)
  }

  function Link(db: Db, key: IdentityKey, user: UserId): Db {
    db.(identities := db.identities[key := user])
  }

  function DeleteIdentitiesOf(db: Db, user: UserId): Db {
    db.(identities := map key | key in db.identities && db.identities[key] != user :: db.identities[key])
  }

  function DeleteRolesOf(db: Db, user: UserId): Db {
    db.(roles := set row | row in db.roles && row.user != user)
  }

  function RolesOf(roles: set<RoleRow>, user: UserId): set<RoleCode> {
    set row | row in roles && row.user == user :: row.code
  }

  function WithRoles(roles: set<RoleRow>, user: UserId, codes: set<RoleCode>): set<RoleRow> {
    (set row | row in roles && row.user != user) + (set code | code in codes :: RoleRow(user, code))
  }

  function Log(db: Db, rows: seq<Audit>): Db {
    db.(audit := db.audit + rows)
  }

  // ----- what the tables keep -----

  /** Every session is a known user's, keeps its expiry, and is revoked unless its user is not deleted. */
  ghost predicate SessionsOk(db: Db, settings: Settings) {
    forall id :: id in db.sessions ==> SessionOk(db, db.sessions[id], settings)
  }

  ghost predicate SessionOk(db: Db, s: Session, settings: Settings) {
    && s.userId in db.users
    && (s.revokedAt == None ==> Live(db, s.userId))
    && KeepsExpiry(settings, s.times)
  }

  ghost predicate IdentitiesOk(db: Db) {
    forall key :: key in db.identities ==> Live(db, db.identities[key])
  }

  ghost predicate RolesOk(db: Db) {
    forall row :: row in db.roles ==> Live(db, row.user)
  }

  ghost predicate EmailsUnique(db: Db) {
    forall a, b, email :: HasEmail(db, a, email) && HasEmail(db, b, email) ==> a == b
  }

  ghost predicate Safe(db: Db, settings: Settings) {
    SessionsOk(db, settings) && IdentitiesOk(db) && RolesOk(db) && EmailsUnique(db)
  }

  /** A new user whose address no user that is not deleted has. */
  lemma AddUserIsSafe(db: Db, id: UserId, user: User, settings: Settings)
    requires Safe(db, settings) && id !in db.users && user.deletedAt == None
    requires FindByEmail(db, user.email) == None
    ensures Safe(PutUser(db, id, user), settings)
  {
    var after := PutUser(db, id, user);
    assert forall u :: u != id ==> Live(after, u) == Live(db, u);
    forall a, b, email | HasEmail(after, a, email) && HasEmail(after, b, email) ensures a == b {
      assert a != id ==> HasEmail(db, a, email);
      assert b != id ==> HasEmail(db, b, email);
    }
  }

  /** A user that stays not deleted, with its address or one nobody else has. */
  lemma UpdateUserIsSafe(db: Db, id: UserId, user: User, settings: Settings)
    requires Safe(db, settings) && Live(db, id) && user.deletedAt == None
    requires forall other :: HasEmail(db, other, user.email) ==> other == id
    ensures Safe(PutUser(db, id, user), settings)
  {
    var after := PutUser(db, id, user);
    assert forall u :: Live(after, u) == Live(db, u);
    forall a, b, email | HasEmail(after, a, email) && HasEmail(after, b, email) ensures a == b {
      assert a != id ==> HasEmail(db, a, email);
      assert b != id ==> HasEmail(db, b, email);
    }
  }

  lemma PutSessionIsSafe(db: Db, id: SessionId, session: Session, settings: Settings)
    requires Safe(db, settings) && SessionOk(db, session, settings)
    ensures Safe(PutSession(db, id, session), settings)
  {
    SameUsersSameEmails(db, PutSession(db, id, session));
  }

  lemma SameUsersSameEmails(db: Db, after: Db)
    requires EmailsUnique(db) && after.users == db.users
    ensures EmailsUnique(after)
  {
    forall a, b, email | HasEmail(after, a, email) && HasEmail(after, b, email) ensures a == b {
      assert HasEmail(db, a, email) && HasEmail(db, b, email);
    }
  }

  lemma RevokingIsSafe(db: Db, user: UserId, tokenHash: Digest, at: Time, settings: Settings)
    requires Safe(db, settings)
    ensures Safe(RevokeSessionsOf(db, user, at), settings) && Safe(RevokeActiveByToken(db, tokenHash, at), settings)
  {
    SameUsersSameEmails(db, RevokeSessionsOf(db, user, at));
    SameUsersSameEmails(db, RevokeActiveByToken(db, tokenHash, at));
  }

  lemma LinkIsSafe(db: Db, key: IdentityKey, user: UserId, settings: Settings)
    requires Safe(db, settings) && Live(db, user)
    ensures Safe(Link(db, key, user), settings)
  {
    SameUsersSameEmails(db, Link(db, key, user));
  }

  lemma WithRolesIsSafe(db: Db, user: UserId, codes: set<RoleCode>, settings: Settings)
    requires Safe(db, settings) && Live(db, user)
    ensures Safe(db.(roles := WithRoles(db.roles, user, codes)), settings)
  {
    SameUsersSameEmails(db, db.(roles := WithRoles(db.roles, user, codes)));
  }

  /** Dropping rows of any table but the users, and changing audit rows or OIDC states, is always safe. */
  lemma FewerRowsAreSafe(db: Db, after: Db, settings: Settings)
    requires Safe(db, settings) && after.users == db.users
    requires forall id :: id in after.sessions ==> id in db.sessions && after.sessions[id] == db.sessions[id]
    requires forall key :: key in after.identities ==> key in db.identities && after.identities[key] == db.identities[key]
    requires after.roles <= db.roles
    ensures Safe(after, settings)
  {
    SameUsersSameEmails(db, after);
  }

  // ----- the audit trail -----

  /** The roles an auditor reads out of the trail for one user. */
  function AuditedRoles(audit: seq<Audit>, user: UserId): set<RoleCode> {
    if audit == [] then {}
    else
      var before := AuditedRoles(audit[..|audit| - 1], user);
      match audit[|audit| - 1]
      case RoleGranted(target, code) => if target == user then before + {code} else before
      case RoleRevoked(target, code) => if target == user then before - {code} else before
      case _ => before
  }

  function DeletionRows(audit: seq<Audit>, user: UserId): nat {
    if audit == [] then 0
    else DeletionRows(audit[..|audit| - 1], user) + if audit[|audit| - 1] == UserMarkedDeleted(user) then 1 else 0
  }

  /** For every user not deleted the trail gives exactly the stored roles; each deletion left one row. */
  ghost predicate Audited(db: Db) {
    && (forall user :: RolesAudited(db, user))
    && (forall user :: DeletionAudited(db, user))
  }

  ghost predicate RolesAudited(db: Db, user: UserId) {
    && (Live(db, user) ==> AuditedRoles(db.audit, user) == RolesOf(db.roles, user))
    && (user !in db.users ==> AuditedRoles(db.audit, user) == {})
  }

  ghost predicate DeletionAudited(db: Db, user: UserId) {
    DeletionRows(db.audit, user) == if user in db.users && !Live(db, user) then 1 else 0
  }

  function Grants(user: UserId, codes: seq<RoleCode>): seq<Audit> {
    seq(|codes|, i requires 0 <= i < |codes| => RoleGranted(user, codes[i]))
  }

  function Revocations(rows: seq<RoleRow>): seq<Audit> {
    seq(|rows|, i requires 0 <= i < |rows| => RoleRevoked(rows[i].user, rows[i].code))
  }

  function RowsFor(user: UserId, codes: seq<RoleCode>): seq<RoleRow> {
    seq(|codes|, i requires 0 <= i < |codes| => RoleRow(user, codes[i]))
  }

  /** Every member once.  The code lists sets in code order; any order tells an auditor the same. */
  ghost predicate Lists<T(!new)>(order: seq<T>, members: set<T>) {
    && (forall x :: x in order <==> x in members)
    && (forall i, j :: 0 <= i < j < |order| ==> order[i] != order[j])
  }

  lemma AuditSnoc(audit: seq<Audit>, row: Audit, user: UserId)
    ensures DeletionRows(audit + [row], user) == DeletionRows(audit, user) + if row == UserMarkedDeleted(user) then 1 else 0
    ensures AuditedRoles(audit + [row], user)
         == match row
            case RoleGranted(target, code) => AuditedRoles(audit, user) + if target == user then {code} else {}
            case RoleRevoked(target, code) => AuditedRoles(audit, user) - if target == user then {code} else {}
            case _ => AuditedRoles(audit, user)
  {
    assert (audit + [row])[..|audit|] == audit;
  }

  lemma {:induction false} GrantsAreRead(audit: seq<Audit>, target: UserId, codes: seq<RoleCode>, user: UserId)
    ensures AuditedRoles(audit + Grants(target, codes), user)
         == AuditedRoles(audit, user) + if target == user then (set c | c in codes) else {}
    ensures DeletionRows(audit + Grants(target, codes), user) == DeletionRows(audit, user)
  {
    if codes == [] {
      assert audit + Grants(target, codes) == audit;
    } else {
      var n := |codes| - 1;
      GrantsAreRead(audit, target, codes[..n], user);
      AuditSnoc(audit + Grants(target, codes[..n]), RoleGranted(target, codes[n]), user);
      GrantsSnoc(audit, target, codes);
      assert codes == codes[..n] + [codes[n]];
    }
  }

  lemma GrantsSnoc(audit: seq<Audit>, target: UserId, codes: seq<RoleCode>)
    requires codes != []
    ensures var n := |codes| - 1;
            audit + Grants(target, codes) == audit + Grants(target, codes[..n]) + [RoleGranted(target, codes[n])]
  {
  }

  lemma {:induction false} RevocationsAreRead(audit: seq<Audit>, rows: seq<RoleRow>, user: UserId)
    ensures AuditedRoles(audit + Revocations(rows), user)
         == AuditedRoles(audit, user) - (set row | row in rows && row.user == user :: row.code)
    ensures DeletionRows(audit + Revocations(rows), user) == DeletionRows(audit, user)
  {
    if rows == [] {
      assert audit + Revocations(rows) == audit;
    } else {
      var n := |rows| - 1;
      RevocationsAreRead(audit, rows[..n], user);
      AuditSnoc(audit + Revocations(rows[..n]), RoleRevoked(rows[n].user, rows[n].code), user);
      assert audit + Revocations(rows) == audit + Revocations(rows[..n]) + [RoleRevoked(rows[n].user, rows[n].code)];
      assert rows == rows[..n] + [rows[n]];
    }
  }

  /** Changes that touch neither roles nor deletions, and log nothing about them, keep the trail right. */
  lemma QuietChangeIsAudited(db: Db, after: Db, rows: seq<Audit>)
    requires Audited(db)
    requires after.roles == db.roles && after.audit == db.audit + rows
    requires forall i :: 0 <= i < |rows| ==> rows[i].OtherEvent?
    requires forall user :: Live(after, user) == Live(db, user) && (user in after.users <==> user in db.users)
    ensures Audited(after)
  {
    forall user ensures RolesAudited(after, user) && DeletionAudited(after, user) {
      assert RolesAudited(db, user) && DeletionAudited(db, user);
      OtherRowsAreQuiet(db.audit, rows, user);
    }
  }

  lemma {:induction false} OtherRowsAreQuiet(audit: seq<Audit>, rows: seq<Audit>, user: UserId)
    requires forall i :: 0 <= i < |rows| ==> rows[i].OtherEvent?
    ensures AuditedRoles(audit + rows, user) == AuditedRoles(audit, user)
    ensures DeletionRows(audit + rows, user) == DeletionRows(audit, user)
  {
    if rows == [] {
      assert audit + rows == audit;
    } else {
      var n := |rows| - 1;
      OtherRowsAreQuiet(audit, rows[..n], user);
      AuditSnoc(audit + rows[..n], rows[n], user);
      assert audit + rows == audit + rows[..n] + [rows[n]];
    }
  }

  /** A user that did not exist has no role and no row about it. */
  lemma NewUserIsAudited(db: Db, id: UserId, user: User, settings: Settings)
    requires Safe(db, settings) && Audited(db) && id !in db.users && user.deletedAt == None
    ensures Audited(PutUser(db, id, user))
  {
    var after := PutUser(db, id, user);
    forall u ensures RolesAudited(after, u) && DeletionAudited(after, u) {
      assert RolesAudited(db, u) && DeletionAudited(db, u);
      if u == id {
        assert forall row :: row in db.roles ==> row.user != id;
        assert RolesOf(db.roles, id) == {};
      }
    }
  }
}
