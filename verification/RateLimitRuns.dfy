/**
 Whole runs of the limiter's operations, told in event logs: one log for each of the five scopes.  A verdict is
 right when it compares, for every scope the operation looks at, the events in the window with the limit.
 */
module RateLimitRuns {
  import opened RateLimitLog

  datatype Scope = EmailIp | Ip | Email | RegistrationIp | OidcIp

  datatype Limits = Limits(perEmailIp: int, perIp: int, perEmail: int, registrationsPerIp: int, oidcStartsPerIp: int)

  datatype Settings = Settings(window: nat, registrationWindow: nat, limits: Limits, cap: nat)

  /** The limiter's interface; a clock reading comes with every operation that reads the clock. */
  datatype Operation =
    | IsAllowed(ip: string, email: string, at: real)
    | IsAccountDeletionReauthAllowed(ip: string, email: string, at: real)
    | RecordFailure(ip: string, email: string, includeEmailBucket: bool, at: real)
    | RecordSuccess(ip: string, email: string)
    | IsRegistrationAllowed(ip: string, at: real)
    | RecordRegistration(ip: string, at: real)
    | IsOidcAuthorizationAllowed(ip: string, at: real)
    | RecordOidcAuthorization(ip: string, at: real)

  function EmailIpKey(ip: string, email: string): string {
    ip + ":" + email
  }

  predicate Checks(op: Operation) {
    op.IsAllowed? || op.IsAccountDeletionReauthAllowed? || op.IsRegistrationAllowed? || op.IsOidcAuthorizationAllowed?
  }

  predicate Records(op: Operation) {
    op.RecordFailure? || op.RecordRegistration? || op.RecordOidcAuthorization?
  }

  predicate HasEmail(op: Operation) {
    op.IsAllowed? || op.IsAccountDeletionReauthAllowed? || op.RecordFailure? || op.RecordSuccess?
  }

  /** The operation looks at this scope, or changes it. */
  predicate Touches(op: Operation, scope: Scope) {
    match scope
    case EmailIp => HasEmail(op)
    case Ip => HasEmail(op) && !op.RecordSuccess?
    case Email => op.IsAllowed? || (op.RecordFailure? && op.includeEmailBucket)
    case RegistrationIp => op.IsRegistrationAllowed? || op.RecordRegistration?
    case OidcIp => op.IsOidcAuthorizationAllowed? || op.RecordOidcAuthorization?
  }

  function KeyIn(op: Operation, scope: Scope): string {
    if scope == EmailIp && HasEmail(op) then EmailIpKey(op.ip, op.email)
    else if scope == Email && HasEmail(op) then op.email
    else op.ip
  }

  function WindowOf(settings: Settings, scope: Scope): nat {
    if scope == RegistrationIp then settings.registrationWindow else settings.window
  }

  function LimitOf(limits: Limits, scope: Scope): int {
    match scope
    case EmailIp => limits.perEmailIp
    case Ip => limits.perIp
    case Email => limits.perEmail
    case RegistrationIp => limits.registrationsPerIp
    case OidcIp => limits.oidcStartsPerIp
  }

  /** One scope's log after an operation; with a cap, a record may find no room. */
  function Applied(log: Log, op: Operation, scope: Scope, settings: Settings, capped: bool): Log {
    if !Touches(op, scope) || Checks(op) then log
    else if op.RecordSuccess? then Clear(log, KeyIn(op, scope))
    else if capped then RecordCapped(log, KeyIn(op, scope), op.at, WindowOf(settings, scope), settings.cap)
    else log + [Event(KeyIn(op, scope), op.at)]
  }

  /** One scope's log after a run: of every event, or of those that found room below the cap. */
  function ScopeLog(run: seq<Operation>, scope: Scope, settings: Settings, capped: bool): Log {
    if run == [] then []
    else Applied(ScopeLog(run[..|run| - 1], scope, settings, capped), run[|run| - 1], scope, settings, capped)
  }

  /** The events of the operation's key in the window of a scope's log, at the time of the operation. */
  function CountOn(log: Log, op: Operation, scope: Scope, settings: Settings): nat
    requires Checks(op)
  {
    CountSince(log, KeyIn(op, scope), op.at - WindowOf(settings, scope) as real)
  }

  function CountIn(run: seq<Operation>, op: Operation, scope: Scope, settings: Settings, capped: bool): nat
    requires Checks(op)
  {
    CountOn(ScopeLog(run, scope, settings, capped), op, scope, settings)
  }

  ghost predicate Verdict(run: seq<Operation>, op: Operation, settings: Settings, capped: bool)
    requires Checks(op)
  {
    forall scope :: Touches(op, scope) ==> CountIn(run, op, scope, settings, capped) < LimitOf(settings.limits, scope)
  }

  /** The verdicts of a run's checks. */
  ghost function Verdicts(run: seq<Operation>, settings: Settings, capped: bool): seq<bool> {
    if run == [] then []
    else
      var n := |run| - 1;
      var before := Verdicts(run[..n], settings, capped);
      if Checks(run[n]) then before + [Verdict(run[..n], run[n], settings, capped)] else before
  }

  /** The last operation of a run drops its event in this scope. */
  predicate DropsIn(run: seq<Operation>, op: Operation, scope: Scope, settings: Settings) {
    && Records(op) && Touches(op, scope)
    && Dropped(ScopeLog(run, scope, settings, true), KeyIn(op, scope), op.at, WindowOf(settings, scope), settings.cap)
  }

  /** Some record of the run drops an event in some scope. */
  ghost predicate DropsSome(run: seq<Operation>, settings: Settings) {
    exists i, scope :: 0 <= i < |run| && DropsIn(run[..i], run[i], scope, settings)
  }

  lemma PrefixDropsNone(run: seq<Operation>, settings: Settings)
    requires run != [] && !DropsSome(run, settings)
    ensures !DropsSome(run[..|run| - 1], settings)
  {
    var n := |run| - 1;
    forall i, scope | 0 <= i < n ensures !DropsIn(run[..n][..i], run[..n][i], scope, settings) {
      assert run[..n][..i] == run[..i];
      assert !DropsIn(run[..i], run[i], scope, settings);
    }
  }

  /** A run with no drop is judged by the logs of all its events. */
  lemma {:induction false} NoDropMeansFullLog(run: seq<Operation>, scope: Scope, settings: Settings)
    requires !DropsSome(run, settings)
    ensures ScopeLog(run, scope, settings, true) == ScopeLog(run, scope, settings, false)
  {
    if run != [] {
      var n := |run| - 1;
      PrefixDropsNone(run, settings);
      NoDropMeansFullLog(run[..n], scope, settings);
      assert !DropsIn(run[..n], run[n], scope, settings);
    }
  }

  lemma {:induction false} NoDropMeansFullVerdicts(run: seq<Operation>, settings: Settings)
    requires !DropsSome(run, settings)
    ensures Verdicts(run, settings, true) == Verdicts(run, settings, false)
  {
    if run != [] {
      var n := |run| - 1;
      PrefixDropsNone(run, settings);
      NoDropMeansFullVerdicts(run[..n], settings);
      if Checks(run[n]) {
        forall scope
          ensures CountIn(run[..n], run[n], scope, settings, true) == CountIn(run[..n], run[n], scope, settings, false)
        {
          NoDropMeansFullLog(run[..n], scope, settings);
        }
      }
    }
  }

  lemma AppliedUndercounts(less: Log, more: Log, op: Operation, scope: Scope, settings: Settings, key: string, since: real)
    requires CountSince(less, key, since) <= CountSince(more, key, since)
    ensures CountSince(Applied(less, op, scope, settings, true), key, since)
         <= CountSince(Applied(more, op, scope, settings, false), key, since)
  {
    if Touches(op, scope) && op.RecordSuccess? {
      ClearCounts(less, KeyIn(op, scope), key, since);
      ClearCounts(more, KeyIn(op, scope), key, since);
    } else if Touches(op, scope) && Records(op) {
      CountSinceAppend(less, Event(KeyIn(op, scope), op.at), key, since);
      CountSinceAppend(more, Event(KeyIn(op, scope), op.at), key, since);
    }
  }

  /** Drops only undercount, in every scope. */
  lemma {:induction false} DropsOnlyUndercount(
      run: seq<Operation>, settings: Settings, scope: Scope, key: string, since: real)
    ensures CountSince(ScopeLog(run, scope, settings, true), key, since)
         <= CountSince(ScopeLog(run, scope, settings, false), key, since)
  {
    if run != [] {
      var before, op := run[..|run| - 1], run[|run| - 1];
      DropsOnlyUndercount(before, settings, scope, key, since);
      AppliedUndercounts(ScopeLog(before, scope, settings, true), ScopeLog(before, scope, settings, false),
                         op, scope, settings, key, since);
    }
  }

  lemma CountInUndercounts(run: seq<Operation>, op: Operation, scope: Scope, settings: Settings)
    requires Checks(op)
    ensures CountIn(run, op, scope, settings, true) <= CountIn(run, op, scope, settings, false)
  {
    DropsOnlyUndercount(run, settings, scope, KeyIn(op, scope), op.at - WindowOf(settings, scope) as real);
  }

  /** Hence the cap can let a request through, never turn one away. */
  lemma DropsOnlyAdmit(run: seq<Operation>, op: Operation, settings: Settings)
    requires Checks(op) && Verdict(run, op, settings, false)
    ensures Verdict(run, op, settings, true)
  {
    forall scope | Touches(op, scope)
      ensures CountIn(run, op, scope, settings, true) < LimitOf(settings.limits, scope)
    {
      CountInUndercounts(run, op, scope, settings);
    }
  }

  /** The latest clock reading of a run. */
  function LastAt(run: seq<Operation>): real {
    if run == [] then 0.0
    else if run[|run| - 1].RecordSuccess? then LastAt(run[..|run| - 1])
    else run[|run| - 1].at
  }

  /** The clock does not go back. */
  ghost predicate InOrder(run: seq<Operation>) {
    forall i :: 0 <= i < |run| && !run[i].RecordSuccess? ==> LastAt(run[..i]) <= run[i].at
  }
}
