/**
 The limiter's verdicts by the operations' own fields: which failures, registrations and starts of a run a check
 counts.  Nothing here mentions keys or logs except to connect them; the one place where keys matter is the colon
 that joins address and e-mail into one key.
 */
module RateLimitVerdicts {
  import opened RateLimitLog
  import opened RateLimitRuns

  // ----- the joined key -----

  /** The first address goes on with a colon and the rest of what the second e-mail starts with. */
  predicate Overlaps(ip1: string, email1: string, ip2: string, email2: string) {
    && |ip1| > |ip2| && ip1[..|ip2|] == ip2 && ip1[|ip2|] == ':'
    && email2 == ip1[|ip2| + 1..] + ":" + email1
  }

  /** Two different pairs of address and e-mail that the limiter takes for one. */
  predicate Confused(ip1: string, email1: string, ip2: string, email2: string) {
    Overlaps(ip1, email1, ip2, email2) || Overlaps(ip2, email2, ip1, email1)
  }

  lemma OverlapsExactly(ip1: string, email1: string, ip2: string, email2: string)
    requires |ip1| > |ip2|
    ensures EmailIpKey(ip1, email1) == EmailIpKey(ip2, email2) <==> Overlaps(ip1, email1, ip2, email2)
  {
    var a, b, n := EmailIpKey(ip1, email1), EmailIpKey(ip2, email2), |ip2|;
    assert a[..n] == ip1[..n] && a[n] == ip1[n] && a[n + 1..] == ip1[n + 1..] + ":" + email1;
    assert b[..n] == ip2 && b[n] == ':' && b[n + 1..] == email2;
    assert a == a[..n] + [a[n]] + a[n + 1..] && b == b[..n] + [b[n]] + b[n + 1..];
  }

  /** The joined key tells two pairs apart, except exactly those that a colon confuses. */
  lemma PairKeysAgree(ip1: string, email1: string, ip2: string, email2: string)
    ensures EmailIpKey(ip1, email1) == EmailIpKey(ip2, email2) <==>
              (ip1 == ip2 && email1 == email2) || Confused(ip1, email1, ip2, email2)
  {
    if |ip1| > |ip2| {
      OverlapsExactly(ip1, email1, ip2, email2);
    } else if |ip2| > |ip1| {
      OverlapsExactly(ip2, email2, ip1, email1);
    } else {
      var a, b, n := EmailIpKey(ip1, email1), EmailIpKey(ip2, email2), |ip1|;
      assert a[..n] == ip1 && a[n + 1..] == email1;
      assert b[..n] == ip2 && b[n + 1..] == email2;
    }
  }

  /** So e-mails without a colon are never confused, whatever the addresses. */
  lemma ColonsConfuse(ip1: string, email1: string, ip2: string, email2: string)
    requires Confused(ip1, email1, ip2, email2)
    ensures ':' in email1 || ':' in email2
  {
    if Overlaps(ip1, email1, ip2, email2) {
      assert email2[|ip1| - |ip2| - 1] == ':';
    } else {
      assert email1[|ip2| - |ip1| - 1] == ':';
    }
  }

  // ----- what a run tells -----

  /** The failures of this e-mail from this address, since their latest success together. */
  function PairFailures(run: seq<Operation>, ip: string, email: string, since: real): nat {
    if run == [] then 0
    else
      var before := PairFailures(run[..|run| - 1], ip, email, since);
      match run[|run| - 1]
      case RecordFailure(i, e, _, at) => before + if i == ip && e == email && at >= since then 1 else 0
      case RecordSuccess(i, e) => if i == ip && e == email then 0 else before
      case _ => before
  }

  function IpFailures(run: seq<Operation>, ip: string, since: real): nat {
    if run == [] then 0
    else
      var before, op := IpFailures(run[..|run| - 1], ip, since), run[|run| - 1];
      before + if op.RecordFailure? && op.ip == ip && op.at >= since then 1 else 0
  }

  /** Failures at the login only: an account deletion does not count against the e-mail. */
  function EmailFailures(run: seq<Operation>, email: string, since: real): nat {
    if run == [] then 0
    else
      var before, op := EmailFailures(run[..|run| - 1], email, since), run[|run| - 1];
      before + if op.RecordFailure? && op.includeEmailBucket && op.email == email && op.at >= since then 1 else 0
  }

  function Registrations(run: seq<Operation>, ip: string, since: real): nat {
    if run == [] then 0
    else
      var before, op := Registrations(run[..|run| - 1], ip, since), run[|run| - 1];
      before + if op.RecordRegistration? && op.ip == ip && op.at >= since then 1 else 0
  }

  function OidcStarts(run: seq<Operation>, ip: string, since: real): nat {
    if run == [] then 0
    else
      var before, op := OidcStarts(run[..|run| - 1], ip, since), run[|run| - 1];
      before + if op.RecordOidcAuthorization? && op.ip == ip && op.at >= since then 1 else 0
  }

  /** What each check promises. */
  predicate Promised(run: seq<Operation>, op: Operation, settings: Settings)
    requires Checks(op)
  {
    var from := op.at - settings.window as real;
    match op
    case IsAllowed(ip, email, _) =>
      && PairFailures(run, ip, email, from) < settings.limits.perEmailIp
      && IpFailures(run, ip, from) < settings.limits.perIp
      && EmailFailures(run, email, from) < settings.limits.perEmail
    case IsAccountDeletionReauthAllowed(ip, email, _) =>
      && PairFailures(run, ip, email, from) < settings.limits.perEmailIp
      && IpFailures(run, ip, from) < settings.limits.perIp
    case IsRegistrationAllowed(ip, at) =>
      Registrations(run, ip, at - settings.registrationWindow as real) < settings.limits.registrationsPerIp
    case IsOidcAuthorizationAllowed(ip, _) => OidcStarts(run, ip, from) < settings.limits.oidcStartsPerIp
  }

  function PromisedVerdicts(run: seq<Operation>, settings: Settings): seq<bool> {
    if run == [] then []
    else
      var n := |run| - 1;
      var before := PromisedVerdicts(run[..n], settings);
      if Checks(run[n]) then before + [Promised(run[..n], run[n], settings)] else before
  }

  // ----- the logs count what the run tells -----

  /** No operation of the run is confused with this pair. */
  ghost predicate Unconfused(run: seq<Operation>, ip: string, email: string) {
    forall i :: 0 <= i < |run| && HasEmail(run[i]) ==> !Confused(run[i].ip, run[i].email, ip, email)
  }

  /** No two operations of the run are confused. */
  ghost predicate NoneConfused(run: seq<Operation>) {
    forall i :: 0 <= i < |run| && HasEmail(run[i]) ==> Unconfused(run, run[i].ip, run[i].email)
  }

  /** One scope's count after one more operation. */
  lemma CountAfter(run: seq<Operation>, scope: Scope, settings: Settings, key: string, since: real)
    requires run != []
    ensures var op, before := run[|run| - 1], ScopeLog(run[..|run| - 1], scope, settings, false);
            CountSince(ScopeLog(run, scope, settings, false), key, since) ==
            if !Touches(op, scope) || Checks(op) then CountSince(before, key, since)
            else if op.RecordSuccess? then if KeyIn(op, scope) == key then 0 else CountSince(before, key, since)
            else CountSince(before, key, since) + if KeyIn(op, scope) == key && op.at >= since then 1 else 0
  {
    var op, before := run[|run| - 1], ScopeLog(run[..|run| - 1], scope, settings, false);
    if Touches(op, scope) && op.RecordSuccess? {
      ClearCounts(before, KeyIn(op, scope), key, since);
    } else if Touches(op, scope) && Records(op) {
      CountSinceAppend(before, Event(KeyIn(op, scope), op.at), key, since);
    }
  }

  /** The same failures together with those of all pairs that are taken for this one. */
  function TakenFailures(run: seq<Operation>, ip: string, email: string, since: real): nat {
    if run == [] then 0
    else
      var before, op := TakenFailures(run[..|run| - 1], ip, email, since), run[|run| - 1];
      if op.RecordFailure? && TakenFor(op, ip, email) && op.at >= since then before + 1
      else if op.RecordSuccess? && TakenFor(op, ip, email) then 0
      else before
  }

  predicate TakenFor(op: Operation, ip: string, email: string)
    requires HasEmail(op)
  {
    (op.ip == ip && op.email == email) || Confused(op.ip, op.email, ip, email)
  }

  /** What the pair scope counts, on every run: the failures of all pairs taken for this one. */
  lemma {:induction false} PairCountIsTaken(
      run: seq<Operation>, settings: Settings, ip: string, email: string, since: real)
    ensures CountSince(ScopeLog(run, EmailIp, settings, false), EmailIpKey(ip, email), since)
         == TakenFailures(run, ip, email, since)
  {
    if run != [] {
      var n := |run| - 1;
      PairCountIsTaken(run[..n], settings, ip, email, since);
      CountAfter(run, EmailIp, settings, EmailIpKey(ip, email), since);
      if HasEmail(run[n]) {
        PairKeysAgree(run[n].ip, run[n].email, ip, email);
      }
    }
  }

  lemma {:induction false} TakenAreOwn(run: seq<Operation>, ip: string, email: string, since: real)
    requires Unconfused(run, ip, email)
    ensures TakenFailures(run, ip, email, since) == PairFailures(run, ip, email, since)
  {
    if run != [] {
      TakenAreOwn(run[..|run| - 1], ip, email, since);
    }
  }

  /** So, where no colon confuses them: this e-mail's failures from this address, and no other's. */
  lemma PairCountIsFailures(run: seq<Operation>, settings: Settings, ip: string, email: string, since: real)
    requires Unconfused(run, ip, email)
    ensures CountSince(ScopeLog(run, EmailIp, settings, false), EmailIpKey(ip, email), since)
         == PairFailures(run, ip, email, since)
  {
    PairCountIsTaken(run, settings, ip, email, since);
    TakenAreOwn(run, ip, email, since);
  }

  /** What the scopes with plain keys count, one by one. */
  lemma {:induction false} IpCountIsFailures(run: seq<Operation>, settings: Settings, ip: string, since: real)
    ensures CountSince(ScopeLog(run, Ip, settings, false), ip, since) == IpFailures(run, ip, since)
  {
    if run != [] {
      IpCountIsFailures(run[..|run| - 1], settings, ip, since);
      CountAfter(run, Ip, settings, ip, since);
    }
  }

  lemma {:induction false} EmailCountIsFailures(run: seq<Operation>, settings: Settings, email: string, since: real)
    ensures CountSince(ScopeLog(run, Email, settings, false), email, since) == EmailFailures(run, email, since)
  {
    if run != [] {
      EmailCountIsFailures(run[..|run| - 1], settings, email, since);
      CountAfter(run, Email, settings, email, since);
    }
  }

  lemma {:induction false} RegistrationsAreCounted(run: seq<Operation>, settings: Settings, ip: string, since: real)
    ensures CountSince(ScopeLog(run, RegistrationIp, settings, false), ip, since) == Registrations(run, ip, since)
  {
    if run != [] {
      RegistrationsAreCounted(run[..|run| - 1], settings, ip, since);
      CountAfter(run, RegistrationIp, settings, ip, since);
    }
  }

  lemma {:induction false} OidcStartsAreCounted(run: seq<Operation>, settings: Settings, ip: string, since: real)
    ensures CountSince(ScopeLog(run, OidcIp, settings, false), ip, since) == OidcStarts(run, ip, since)
  {
    if run != [] {
      OidcStartsAreCounted(run[..|run| - 1], settings, ip, since);
      CountAfter(run, OidcIp, settings, ip, since);
    }
  }

  /** What the run tells about one scope of a check. */
  function ToldIn(run: seq<Operation>, op: Operation, scope: Scope, since: real): nat
    requires Checks(op) && Touches(op, scope)
  {
    match scope
    case EmailIp => PairFailures(run, op.ip, op.email, since)
    case Ip => IpFailures(run, op.ip, since)
    case Email => EmailFailures(run, op.email, since)
    case RegistrationIp => Registrations(run, op.ip, since)
    case OidcIp => OidcStarts(run, op.ip, since)
  }

  lemma CountIsTold(run: seq<Operation>, op: Operation, scope: Scope, settings: Settings)
    requires Checks(op) && Touches(op, scope) && (HasEmail(op) ==> Unconfused(run, op.ip, op.email))
    ensures CountIn(run, op, scope, settings, false)
         == ToldIn(run, op, scope, op.at - WindowOf(settings, scope) as real)
  {
    var since := op.at - WindowOf(settings, scope) as real;
    match scope
    case EmailIp => PairIsTold(run, op, settings);
    case Ip => FailuresAreTold(run, op, scope, settings);
    case Email => FailuresAreTold(run, op, scope, settings);
    case RegistrationIp => RegistrationsAreCounted(run, settings, op.ip, since);
    case OidcIp => OidcStartsAreCounted(run, settings, op.ip, since);
  }

  lemma PairIsTold(run: seq<Operation>, op: Operation, settings: Settings)
    requires Checks(op) && HasEmail(op) && Unconfused(run, op.ip, op.email)
    ensures CountIn(run, op, EmailIp, settings, false)
         == PairFailures(run, op.ip, op.email, op.at - settings.window as real)
  {
    PairCountIsFailures(run, settings, op.ip, op.email, op.at - settings.window as real);
  }

  lemma FailuresAreTold(run: seq<Operation>, op: Operation, scope: Scope, settings: Settings)
    requires Checks(op) && Touches(op, scope) && (scope == Ip || scope == Email)
    ensures CountIn(run, op, scope, settings, false)
         == ToldIn(run, op, scope, op.at - WindowOf(settings, scope) as real)
  {
    var since := op.at - WindowOf(settings, scope) as real;
    if scope == Ip {
      IpCountIsFailures(run, settings, op.ip, since);
    } else {
      EmailCountIsFailures(run, settings, op.email, since);
    }
  }

  ghost predicate ToldVerdict(run: seq<Operation>, op: Operation, settings: Settings)
    requires Checks(op)
  {
    forall scope :: Touches(op, scope) ==>
      ToldIn(run, op, scope, op.at - WindowOf(settings, scope) as real) < LimitOf(settings.limits, scope)
  }

  lemma ToldIsPromised(run: seq<Operation>, op: Operation, settings: Settings)
    requires Checks(op)
    ensures ToldVerdict(run, op, settings) <==> Promised(run, op, settings)
  {
    assert HasEmail(op) ==> Touches(op, EmailIp) && Touches(op, Ip);
    assert op.IsAllowed? ==> Touches(op, Email);
    assert op.IsRegistrationAllowed? ==> Touches(op, RegistrationIp);
    assert op.IsOidcAuthorizationAllowed? ==> Touches(op, OidcIp);
  }

  /** The verdict of the full logs is the promised one. */
  lemma VerdictIsPromised(run: seq<Operation>, op: Operation, settings: Settings)
    requires Checks(op) && (HasEmail(op) ==> Unconfused(run, op.ip, op.email))
    ensures Verdict(run, op, settings, false) <==> Promised(run, op, settings)
  {
    VerdictIsTold(run, op, settings);
    ToldIsPromised(run, op, settings);
  }

  lemma VerdictIsTold(run: seq<Operation>, op: Operation, settings: Settings)
    requires Checks(op) && (HasEmail(op) ==> Unconfused(run, op.ip, op.email))
    ensures Verdict(run, op, settings, false) <==> ToldVerdict(run, op, settings)
  {
    forall scope | Touches(op, scope)
      ensures CountIn(run, op, scope, settings, false)
           == ToldIn(run, op, scope, op.at - WindowOf(settings, scope) as real)
    {
      CountIsTold(run, op, scope, settings);
    }
  }

  /** On every run whose pairs no colon confuses, all verdicts of the full logs are the promised ones. */
  lemma {:induction false} VerdictsArePromised(run: seq<Operation>, settings: Settings)
    requires NoneConfused(run)
    ensures Verdicts(run, settings, false) == PromisedVerdicts(run, settings)
  {
    if run != [] {
      var n := |run| - 1;
      forall i | 0 <= i < n && HasEmail(run[..n][i]) ensures Unconfused(run[..n], run[..n][i].ip, run[..n][i].email) {
        assert Unconfused(run, run[i].ip, run[i].email);
      }
      VerdictsArePromised(run[..n], settings);
      if Checks(run[n]) {
        assert HasEmail(run[n]) ==> Unconfused(run, run[n].ip, run[n].email);
        VerdictIsPromised(run[..n], run[n], settings);
      }
    }
  }

  /** An input on which a colon in an e-mail turns a request away that had no failure at all. */
  lemma ColonConfusesVerdict(settings: Settings)
    requires settings.limits.perEmailIp == 1 && settings.limits.perIp > 0 && settings.limits.perEmail > 0
    ensures var run := [RecordFailure("a:b", "c", false, 0.0)];
            var op := IsAllowed("a", "b:c", 0.0);
            !Verdict(run, op, settings, false) && Promised(run, op, settings)
  {
    var failure := RecordFailure("a:b", "c", false, 0.0);
    var run, op := [failure], IsAllowed("a", "b:c", 0.0);
    assert run[..0] == [];
    assert EmailIpKey("a:b", "c") == EmailIpKey("a", "b:c");
    CountAfter(run, EmailIp, settings, EmailIpKey("a", "b:c"), 0.0 - settings.window as real);
    assert CountIn(run, op, EmailIp, settings, false) == 1;
    assert Touches(op, EmailIp);
  }
}
