/** On the same run of operations, one at a time, both limiters give the same verdicts. */
module RateLimitAgreement {
  import opened RateLimitLog
  import opened RateLimitRuns
  import opened RateLimitVerdicts
  import M = MemoryRateLimiter
  import R = RedisSlidingWindow

  // ----- the keys of the Redis limiter -----

  function ScopeName(scope: Scope): string {
    match scope
    case EmailIp => "email_ip"
    case Ip => "ip"
    case Email => "email"
    case RegistrationIp => "registration_ip"
    case OidcIp => "oidc_authorization_ip"
  }

  /** The digest of scope and key is injective; the prefix is the same in all keys. */
  function BucketKey(scope: Scope, key: string): string {
    ScopeName(scope) + ":" + key
  }

  lemma BucketKeyIsInjective(s1: Scope, k1: string, s2: Scope, k2: string)
    ensures BucketKey(s1, k1) == BucketKey(s2, k2) <==> s1 == s2 && k1 == k2
  {
    var a, b := BucketKey(s1, k1), BucketKey(s2, k2);
    if s1 != s2 {
      NamesDiffer(s1, s2, k1, k2);
    } else {
      assert k1 == a[|ScopeName(s1)| + 1..] && k2 == b[|ScopeName(s2)| + 1..];
    }
  }

  /** The colon comes where the scope's name ends. */
  lemma NamesDiffer(s1: Scope, s2: Scope, k1: string, k2: string)
    requires s1 != s2
    ensures BucketKey(s1, k1) != BucketKey(s2, k2)
  {
    var a, b := BucketKey(s1, k1), BucketKey(s2, k2);
    var n1, n2 := |ScopeName(s1)|, |ScopeName(s2)|;
    assert a[n1] == ':' && b[n2] == ':';
    if n1 < n2 {
      assert b[n1] == ScopeName(s2)[n1] != ':';
    } else {
      assert a[n2] == ScopeName(s1)[n2] != ':';
    }
  }

  /** Registration keys have a window of their own. */
  function WindowOfKey(settings: Settings, key: string): nat {
    if BucketKey(RegistrationIp, "") <= key then settings.registrationWindow else settings.window
  }

  function RedisWindows(settings: Settings): R.Windows {
    key => WindowOfKey(settings, key)
  }

  lemma WindowOfBucket(settings: Settings, scope: Scope, key: string)
    ensures RedisWindows(settings)(BucketKey(scope, key)) == WindowOf(settings, scope)
  {
    var bucket, prefix := BucketKey(scope, key), BucketKey(RegistrationIp, "");
    if scope == RegistrationIp {
      assert bucket == prefix + key;
    } else if |prefix| <= |bucket| {
      var rest := bucket[|prefix|..];
      NamesDiffer(scope, RegistrationIp, key, rest);
      assert prefix + rest == BucketKey(RegistrationIp, rest);
      assert bucket[..|prefix|] + rest == bucket;
    }
  }

  /** The scopes of an operation in the order of its pipeline. */
  function ScopesOf(op: Operation): seq<Scope> {
    match op
    case IsAllowed(_, _, _) => [EmailIp, Ip, Email]
    case IsAccountDeletionReauthAllowed(_, _, _) => [EmailIp, Ip]
    case RecordFailure(_, _, includeEmailBucket, _) => if includeEmailBucket then [EmailIp, Ip, Email] else [EmailIp, Ip]
    case RecordSuccess(_, _) => [EmailIp]
    case IsRegistrationAllowed(_, _) => [RegistrationIp]
    case RecordRegistration(_, _) => [RegistrationIp]
    case IsOidcAuthorizationAllowed(_, _) => [OidcIp]
    case RecordOidcAuthorization(_, _) => [OidcIp]
  }

  ghost predicate Distinct(scopes: seq<Scope>) {
    forall i, j :: 0 <= i < j < |scopes| ==> scopes[i] != scopes[j]
  }

  lemma ScopesTouched(op: Operation)
    ensures Distinct(ScopesOf(op))
    ensures forall scope :: scope in ScopesOf(op) <==> Touches(op, scope)
  {
    var scopes := ScopesOf(op);
    forall scope | Touches(op, scope) ensures scope in scopes {
      match scope
      case EmailIp => assert scopes[0] == EmailIp;
      case Ip => assert scopes[1] == Ip;
      case Email => assert scopes[2] == Email;
      case RegistrationIp => assert scopes[0] == RegistrationIp;
      case OidcIp => assert scopes[0] == OidcIp;
    }
  }

  function KeysIn(op: Operation, scopes: seq<Scope>): seq<string> {
    seq(|scopes|, i requires 0 <= i < |scopes| => BucketKey(scopes[i], KeyIn(op, scopes[i])))
  }

  function KeysOf(op: Operation): seq<string> {
    KeysIn(op, ScopesOf(op))
  }

  lemma {:induction false} DistinctOccurOnce(keys: seq<string>, key: string)
    requires forall i, j :: 0 <= i < j < |keys| ==> keys[i] != keys[j]
    ensures R.Occurrences(keys, key) == if key in keys then 1 else 0
  {
    if keys != [] {
      var n := |keys| - 1;
      DistinctOccurOnce(keys[..n], key);
      assert key in keys <==> key in keys[..n] || key == keys[n];
    }
  }

  lemma KeysAreDistinct(op: Operation, i: nat, j: nat)
    requires i < j < |KeysOf(op)|
    ensures KeysOf(op)[i] != KeysOf(op)[j]
  {
    ScopesTouched(op);
    var s1, s2 := ScopesOf(op)[i], ScopesOf(op)[j];
    BucketKeyIsInjective(s1, KeyIn(op, s1), s2, KeyIn(op, s2));
  }

  lemma KeyAt(op: Operation, i: nat, scope: Scope, key: string)
    requires i < |KeysOf(op)|
    ensures KeysOf(op)[i] == BucketKey(scope, key) <==> ScopesOf(op)[i] == scope && KeyIn(op, scope) == key
  {
    BucketKeyIsInjective(ScopesOf(op)[i], KeyIn(op, ScopesOf(op)[i]), scope, key);
  }

  /** An operation names the bucket of each of its scopes once and no other bucket. */
  lemma BucketsNamedOnce(op: Operation, scope: Scope, key: string)
    ensures R.Occurrences(KeysOf(op), BucketKey(scope, key))
         == if Touches(op, scope) && KeyIn(op, scope) == key then 1 else 0
  {
    var scopes, keys, bucket := ScopesOf(op), KeysOf(op), BucketKey(scope, key);
    forall i, j | 0 <= i < j < |keys| ensures keys[i] != keys[j] {
      KeysAreDistinct(op, i, j);
    }
    DistinctOccurOnce(keys, bucket);
    forall i | 0 <= i < |keys| ensures keys[i] == bucket <==> scopes[i] == scope && KeyIn(op, scope) == key {
      KeyAt(op, i, scope, key);
    }
    ScopesTouched(op);
    assert Touches(op, scope) <==> exists i :: 0 <= i < |scopes| && scopes[i] == scope;
  }

  // ----- a run as the Redis server sees it -----

  function Repeat(step: R.Step, times: nat): seq<R.Step> {
    if times == 0 then [] else [step] + Repeat(step, times - 1)
  }

  /** What a check does until it has all its counts. */
  function Asking(op: Operation): seq<R.Step>
    requires Checks(op)
  {
    [R.Advance(op.at), R.ReadTimeForCheck(0, KeysOf(op))] + Repeat(R.CountNext(0), |KeysOf(op)|)
  }

  function StepsOf(op: Operation): seq<R.Step> {
    if Checks(op) then Asking(op) + [R.CutOff(0)]
    else if Records(op) then [R.Advance(op.at), R.ReadTimeForRecord(0, KeysOf(op)), R.ExecuteRecord(0)]
    else [R.Delete(BucketKey(EmailIp, KeyIn(op, EmailIp)))]
  }

  /** Each operation finishes before the next one starts. */
  function Schedule(run: seq<Operation>): seq<R.Step> {
    if run == [] then [] else Schedule(run[..|run| - 1]) + StepsOf(run[|run| - 1])
  }

  /** The verdict on the counts a check was told, in the order of its scopes. */
  predicate Below(counts: seq<nat>, op: Operation, limits: Limits) {
    |counts| == |ScopesOf(op)| && forall i :: 0 <= i < |counts| ==> counts[i] < LimitOf(limits, ScopesOf(op)[i])
  }

  predicate RedisVerdict(run: seq<Operation>, op: Operation, settings: Settings)
    requires Checks(op)
  {
    var client := R.ClientOf(R.Run(Schedule(run) + Asking(op), RedisWindows(settings)), 0);
    client.Checking? && Below(client.counts, op, settings.limits)
  }

  function RedisVerdicts(run: seq<Operation>, settings: Settings): seq<bool> {
    if run == [] then []
    else
      var n := |run| - 1;
      var before := RedisVerdicts(run[..n], settings);
      if Checks(run[n]) then before + [RedisVerdict(run[..n], run[n], settings)] else before
  }

  lemma {:induction false} RunConcat(w: R.World, first: seq<R.Step>, second: seq<R.Step>, windows: R.Windows)
    ensures R.RunFrom(w, first + second, windows) == R.RunFrom(R.RunFrom(w, first, windows), second, windows)
    decreases |first|
  {
    if first == [] {
      assert first + second == second;
    } else {
      RunConcat(R.Do(w, first[0], windows), first[1..], second, windows);
      assert (first + second)[1..] == first[1..] + second;
    }
  }

  lemma RunOne(w: R.World, step: R.Step, windows: R.Windows)
    ensures R.RunFrom(w, [step], windows) == R.Do(w, step, windows)
  {
    assert [step][1..] == [];
  }

  lemma RunTwo(w: R.World, first: R.Step, second: R.Step, windows: R.Windows)
    ensures R.RunFrom(w, [first, second], windows) == R.Do(R.Do(w, first, windows), second, windows)
  {
    assert [first, second] == [first] + [second];
    RunConcat(w, [first], [second], windows);
    RunOne(w, first, windows);
    RunOne(R.Do(w, first, windows), second, windows);
  }

  /** The counts of the log for a list of keys. */
  function Told(log: Log, keys: seq<string>, at: real, windows: R.Windows): seq<nat> {
    seq(|keys|, i requires 0 <= i < |keys| => CountSince(log, keys[i], at - windows(keys[i]) as real))
  }

  /** The world while client 0 has the first `done` of its counts, nothing else going on. */
  function Midway(w: R.World, keys: seq<string>, done: nat, windows: R.Windows): R.World
    requires done <= |keys|
  {
    w.(clients := map[0 := R.Checking(keys, w.now, Told(w.log, keys, w.now, windows)[..done])])
  }

  /** Each ZCOUNT, at this moment, would answer as the log does. */
  ghost predicate CountsRight(w: R.World, keys: seq<string>, windows: R.Windows) {
    forall i :: 0 <= i < |keys| ==>
      R.ZCount(w.store, keys[i], w.now - windows(keys[i]) as real) == Told(w.log, keys, w.now, windows)[i]
  }

  lemma ConsistentCountsRight(w: R.World, keys: seq<string>, windows: R.Windows)
    requires R.Consistent(w, windows)
    ensures CountsRight(w, keys, windows)
  {
    forall i | 0 <= i < |keys|
      ensures R.ZCount(w.store, keys[i], w.now - windows(keys[i]) as real) == Told(w.log, keys, w.now, windows)[i]
    {
      R.KeyCountIsBounded(w, keys[i], w.now, windows(keys[i]));
    }
  }

  lemma OneMoreCount(w: R.World, keys: seq<string>, done: nat, windows: R.Windows)
    requires CountsRight(w, keys, windows) && done < |keys|
    ensures R.Do(Midway(w, keys, done, windows), R.CountNext(0), windows) == Midway(w, keys, done + 1, windows)
  {
    var m := Midway(w, keys, done, windows);
    var told := Told(w.log, keys, w.now, windows);
    assert told[..done + 1] == told[..done] + [told[done]];
    assert m.clients[0].counts == told[..done] && R.ClientOf(m, 0) == m.clients[0];
    assert R.Enabled(m, R.CountNext(0)) && R.CountReturned(m, 0, windows) == told[done];
    assert R.Next(m, R.CountNext(0), windows).clients == Midway(w, keys, done + 1, windows).clients;
  }

  /** ZCOUNT by ZCOUNT, with no time in between, the client is told the counts of the log. */
  lemma {:induction false} CountsAreTold(w: R.World, keys: seq<string>, done: nat, windows: R.Windows)
    requires CountsRight(w, keys, windows) && done <= |keys|
    ensures R.RunFrom(Midway(w, keys, done, windows), Repeat(R.CountNext(0), |keys| - done), windows)
         == Midway(w, keys, |keys|, windows)
    decreases |keys| - done
  {
    if done < |keys| {
      OneMoreCount(w, keys, done, windows);
      CountsAreTold(w, keys, done + 1, windows);
      assert Repeat(R.CountNext(0), |keys| - done)[1..] == Repeat(R.CountNext(0), |keys| - done - 1);
    }
  }

  /** Nothing is under way. */
  ghost predicate AtRest(w: R.World, windows: R.Windows) {
    w.clients == map[] && R.Consistent(w, windows)
  }

  lemma AskingRuns(w: R.World, op: Operation, windows: R.Windows)
    requires Checks(op) && AtRest(w, windows) && w.now <= op.at
    ensures var later := w.(now := op.at);
            R.RunFrom(w, Asking(op), windows) == Midway(later, KeysOf(op), |KeysOf(op)|, windows)
    ensures R.Consistent(w.(now := op.at), windows)
  {
    var later, keys := w.(now := op.at), KeysOf(op);
    var start := [R.Advance(op.at), R.ReadTimeForCheck(0, keys)];
    R.StepIsConsistent(w, R.Advance(op.at), windows);
    RunConcat(w, start, Repeat(R.CountNext(0), |keys|), windows);
    RunTwo(w, start[0], start[1], windows);
    assert R.RunFrom(w, start, windows) == Midway(later, keys, 0, windows);
    ConsistentCountsRight(later, keys, windows);
    CountsAreTold(later, keys, 0, windows);
  }

  lemma CheckRuns(w: R.World, op: Operation, windows: R.Windows)
    requires Checks(op) && AtRest(w, windows) && w.now <= op.at
    ensures R.RunFrom(w, StepsOf(op), windows) == w.(now := op.at) && AtRest(w.(now := op.at), windows)
  {
    AskingRuns(w, op, windows);
    RunConcat(w, Asking(op), [R.CutOff(0)], windows);
    var asked := R.RunFrom(w, Asking(op), windows);
    RunOne(asked, R.CutOff(0), windows);
    assert asked.clients - {0} == map[];
  }

  lemma RecordRuns(w: R.World, op: Operation, windows: R.Windows)
    requires Records(op) && AtRest(w, windows) && w.now <= op.at
    ensures var after := R.RunFrom(w, StepsOf(op), windows);
            AtRest(after, windows) && after.now == op.at && after.log == R.LogKeys(w.log, KeysOf(op), op.at)
  {
    var s0, s1, s2 := R.Advance(op.at), R.ReadTimeForRecord(0, KeysOf(op)), R.ExecuteRecord(0);
    R.RunFromIsConsistent(w, StepsOf(op), windows);
    assert StepsOf(op) == [s0, s1] + [s2];
    RunConcat(w, [s0, s1], [s2], windows);
    RunTwo(w, s0, s1, windows);
    var ready := R.Do(R.Do(w, s0, windows), s1, windows);
    assert ready == w.(now := op.at, clients := map[0 := R.Recording(KeysOf(op), op.at)]);
    RunOne(ready, s2, windows);
    assert ready.clients - {0} == map[];
  }

  // ----- the server's log and the five logs -----

  /** The server's log holds, bucket by bucket, the events of the five logs. */
  ghost predicate Matches(log: Log, run: seq<Operation>, settings: Settings) {
    forall scope, key, since ::
      CountSince(log, BucketKey(scope, key), since) == CountSince(ScopeLog(run, scope, settings, false), key, since)
  }

  lemma RecordedBucketMatches(log: Log, run: seq<Operation>, op: Operation, settings: Settings,
                              scope: Scope, key: string, since: real)
    requires CountSince(log, BucketKey(scope, key), since) == CountSince(ScopeLog(run, scope, settings, false), key, since)
    requires Records(op)
    ensures CountSince(R.LogKeys(log, KeysOf(op), op.at), BucketKey(scope, key), since)
         == CountSince(Applied(ScopeLog(run, scope, settings, false), op, scope, settings, false), key, since)
  {
    R.LogKeysCount(log, KeysOf(op), op.at, BucketKey(scope, key), since);
    BucketsNamedOnce(op, scope, key);
    CountSinceAppend(ScopeLog(run, scope, settings, false), Event(KeyIn(op, scope), op.at), key, since);
  }

  lemma RecordMatches(log: Log, run: seq<Operation>, op: Operation, settings: Settings)
    requires Matches(log, run, settings) && Records(op)
    ensures Matches(R.LogKeys(log, KeysOf(op), op.at), run + [op], settings)
  {
    assert (run + [op])[..|run|] == run;
    forall scope, key, since
      ensures CountSince(R.LogKeys(log, KeysOf(op), op.at), BucketKey(scope, key), since)
           == CountSince(ScopeLog(run + [op], scope, settings, false), key, since)
    {
      RecordedBucketMatches(log, run, op, settings, scope, key, since);
    }
  }

  lemma SuccessMatches(log: Log, run: seq<Operation>, op: Operation, settings: Settings)
    requires Matches(log, run, settings) && op.RecordSuccess?
    ensures Matches(Clear(log, BucketKey(EmailIp, KeyIn(op, EmailIp))), run + [op], settings)
  {
    assert (run + [op])[..|run|] == run;
    var cleared := BucketKey(EmailIp, KeyIn(op, EmailIp));
    forall scope, key, since
      ensures CountSince(Clear(log, cleared), BucketKey(scope, key), since)
           == CountSince(ScopeLog(run + [op], scope, settings, false), key, since)
    {
      ClearCounts(log, cleared, BucketKey(scope, key), since);
      BucketKeyIsInjective(EmailIp, KeyIn(op, EmailIp), scope, key);
      ClearCounts(ScopeLog(run, scope, settings, false), KeyIn(op, EmailIp), key, since);
    }
  }

  lemma CheckMatches(log: Log, run: seq<Operation>, op: Operation, settings: Settings)
    requires Matches(log, run, settings) && Checks(op)
    ensures Matches(log, run + [op], settings)
  {
    forall scope ensures ScopeLog(run + [op], scope, settings, false) == ScopeLog(run, scope, settings, false) {
      assert (run + [op])[..|run|] == run;
    }
  }

  /** What holds on the server between two operations. */
  ghost predicate Follows(w: R.World, run: seq<Operation>, settings: Settings) {
    AtRest(w, RedisWindows(settings)) && w.now == LastAt(run) && Matches(w.log, run, settings)
  }

  lemma OperationFollows(w: R.World, run: seq<Operation>, op: Operation, settings: Settings)
    requires Follows(w, run, settings) && (op.RecordSuccess? || w.now <= op.at)
    ensures Follows(R.RunFrom(w, StepsOf(op), RedisWindows(settings)), run + [op], settings)
  {
    var windows := RedisWindows(settings);
    assert (run + [op])[..|run|] == run;
    if Checks(op) {
      CheckRuns(w, op, windows);
      CheckMatches(w.log, run, op, settings);
    } else if Records(op) {
      RecordRuns(w, op, windows);
      RecordMatches(w.log, run, op, settings);
    } else {
      SuccessMatches(w.log, run, op, settings);
      RunOne(w, StepsOf(op)[0], windows);
      R.StepIsConsistent(w, StepsOf(op)[0], windows);
    }
  }

  lemma ToldIsCounted(log: Log, run: seq<Operation>, op: Operation, settings: Settings, i: nat)
    requires Matches(log, run, settings) && Checks(op) && i < |ScopesOf(op)|
    ensures Told(log, KeysOf(op), op.at, RedisWindows(settings))[i] == CountIn(run, op, ScopesOf(op)[i], settings, false)
  {
    var scope := ScopesOf(op)[i];
    WindowOfBucket(settings, scope, KeyIn(op, scope));
  }

  /** The counts a check is told are those of the full logs, so its verdict is theirs. */
  lemma VerdictFollows(w: R.World, run: seq<Operation>, op: Operation, settings: Settings)
    requires Follows(w, run, settings) && Checks(op) && w.now <= op.at
    ensures var client := R.ClientOf(R.RunFrom(w, Asking(op), RedisWindows(settings)), 0);
            client.Checking? && (Below(client.counts, op, settings.limits) <==> Verdict(run, op, settings, false))
  {
    var windows, scopes := RedisWindows(settings), ScopesOf(op);
    var told := Told(w.log, KeysOf(op), op.at, windows);
    AskingRuns(w, op, windows);
    assert told[..|told|] == told;
    forall i | 0 <= i < |scopes| ensures told[i] == CountIn(run, op, scopes[i], settings, false) {
      ToldIsCounted(w.log, run, op, settings, i);
    }
    ToldIsVerdict(told, run, op, settings);
  }

  lemma ToldIsVerdict(told: seq<nat>, run: seq<Operation>, op: Operation, settings: Settings)
    requires Checks(op) && |told| == |ScopesOf(op)|
    requires forall i :: 0 <= i < |told| ==> told[i] == CountIn(run, op, ScopesOf(op)[i], settings, false)
    ensures Below(told, op, settings.limits) <==> Verdict(run, op, settings, false)
  {
    ScopesTouched(op);
    var scopes := ScopesOf(op);
    if Below(told, op, settings.limits) {
      forall scope | Touches(op, scope)
        ensures CountIn(run, op, scope, settings, false) < LimitOf(settings.limits, scope)
      {
        var i :| 0 <= i < |scopes| && scopes[i] == scope;
        assert told[i] < LimitOf(settings.limits, scope);
      }
    }
    if Verdict(run, op, settings, false) {
      forall i | 0 <= i < |told| ensures told[i] < LimitOf(settings.limits, scopes[i]) {
        assert Touches(op, scopes[i]);
      }
    }
  }

  lemma {:induction false} ScheduleFollows(run: seq<Operation>, settings: Settings)
    requires InOrder(run)
    ensures Follows(R.Run(Schedule(run), RedisWindows(settings)), run, settings)
    ensures RedisVerdicts(run, settings) == Verdicts(run, settings, false)
  {
    var windows := RedisWindows(settings);
    if run == [] {
      R.StartIsConsistent(windows);
    } else {
      var n := |run| - 1;
      var before, op := run[..n], run[n];
      assert forall i :: 0 <= i < n ==> before[..i] == run[..i] && before[i] == run[i];
      assert before + [op] == run;
      ScheduleFollows(before, settings);
      var w := R.Run(Schedule(before), windows);
      RunConcat(R.Start, Schedule(before), StepsOf(op), windows);
      OperationFollows(w, before, op, settings);
      if Checks(op) {
        RunConcat(R.Start, Schedule(before), Asking(op), windows);
        VerdictFollows(w, before, op, settings);
      }
    }
  }
  /**
   On every run of the limiter's operations the Redis verdicts are those of the full logs, which are those that the
   operations' own fields promise unless a colon confuses two pairs.  When the in-memory cap dropped nothing in any
   scope, the capped verdicts are the same.
   */
  lemma LimitersAgree(run: seq<Operation>, settings: Settings)
    requires InOrder(run)
    ensures RedisVerdicts(run, settings) == Verdicts(run, settings, false)
    ensures NoneConfused(run) ==> RedisVerdicts(run, settings) == PromisedVerdicts(run, settings)
    ensures !DropsSome(run, settings) ==> Verdicts(run, settings, true) == RedisVerdicts(run, settings)
  {
    ScheduleFollows(run, settings);
    if NoneConfused(run) {
      VerdictsArePromised(run, settings);
    }
    if !DropsSome(run, settings) {
      NoDropMeansFullVerdicts(run, settings);
    }
  }

  // ----- the in-memory limiter on a run -----

  predicate Configured(limiter: M.InMemoryLoginRateLimiter, settings: Settings) {
    && limiter.window == settings.window && limiter.registrationIp.window == settings.registrationWindow
    && limiter.limits == settings.limits
    && limiter.emailIp.cap == limiter.byIp.cap == limiter.byEmail.cap == settings.cap
    && limiter.registrationIp.cap == limiter.oidcIp.cap == settings.cap
  }

  /** The five logs of the limiter are those of the run. */
  ghost predicate HasRun(limiter: M.InMemoryLoginRateLimiter, run: seq<Operation>, settings: Settings)
    reads limiter.emailIp, limiter.byIp, limiter.byEmail, limiter.registrationIp, limiter.oidcIp
  {
    && limiter.emailIp.log == ScopeLog(run, EmailIp, settings, true)
    && limiter.byIp.log == ScopeLog(run, Ip, settings, true)
    && limiter.byEmail.log == ScopeLog(run, Email, settings, true)
    && limiter.registrationIp.log == ScopeLog(run, RegistrationIp, settings, true)
    && limiter.oidcIp.log == ScopeLog(run, OidcIp, settings, true)
  }

  lemma OneMore(run: seq<Operation>, op: Operation, scope: Scope, settings: Settings)
    ensures ScopeLog(run + [op], scope, settings, true)
         == Applied(ScopeLog(run, scope, settings, true), op, scope, settings, true)
  {
    assert (run + [op])[..|run|] == run;
  }

  lemma AllOneMore(run: seq<Operation>, op: Operation, settings: Settings)
    ensures forall scope :: ScopeLog(run + [op], scope, settings, true)
                         == Applied(ScopeLog(run, scope, settings, true), op, scope, settings, true)
  {
    forall scope ensures ScopeLog(run + [op], scope, settings, true)
                      == Applied(ScopeLog(run, scope, settings, true), op, scope, settings, true)
    {
      OneMore(run, op, scope, settings);
    }
  }

  /** Within the limit in one scope, if the operation looks at it. */
  predicate Within(log: Log, op: Operation, scope: Scope, settings: Settings)
    requires Checks(op)
  {
    Touches(op, scope) ==> CountOn(log, op, scope, settings) < LimitOf(settings.limits, scope)
  }

  /** The verdict, read off the five logs. */
  predicate VerdictOn(byPair: Log, byIp: Log, byEmail: Log, registration: Log, oidc: Log, op: Operation, settings: Settings)
    requires Checks(op)
  {
    match op
    case IsAllowed(ip, email, at) =>
      && CountSince(byPair, EmailIpKey(ip, email), at - settings.window as real) < settings.limits.perEmailIp
      && CountSince(byIp, ip, at - settings.window as real) < settings.limits.perIp
      && CountSince(byEmail, email, at - settings.window as real) < settings.limits.perEmail
    case IsAccountDeletionReauthAllowed(ip, email, at) =>
      && CountSince(byPair, EmailIpKey(ip, email), at - settings.window as real) < settings.limits.perEmailIp
      && CountSince(byIp, ip, at - settings.window as real) < settings.limits.perIp
    case IsRegistrationAllowed(ip, at) =>
      CountSince(registration, ip, at - settings.registrationWindow as real) < settings.limits.registrationsPerIp
    case IsOidcAuthorizationAllowed(ip, at) =>
      CountSince(oidc, ip, at - settings.window as real) < settings.limits.oidcStartsPerIp
  }

  lemma VerdictScopeByScope(byPair: Log, byIp: Log, byEmail: Log, registration: Log, oidc: Log,
                            op: Operation, settings: Settings)
    requires Checks(op)
    ensures VerdictOn(byPair, byIp, byEmail, registration, oidc, op, settings) <==>
              && Within(byPair, op, EmailIp, settings) && Within(byIp, op, Ip, settings)
              && Within(byEmail, op, Email, settings)
              && Within(registration, op, RegistrationIp, settings) && Within(oidc, op, OidcIp, settings)
  {
  }

  lemma VerdictIsOnLogs(run: seq<Operation>, op: Operation, settings: Settings)
    requires Checks(op)
    ensures Verdict(run, op, settings, true) <==>
              VerdictOn(ScopeLog(run, EmailIp, settings, true), ScopeLog(run, Ip, settings, true),
                        ScopeLog(run, Email, settings, true), ScopeLog(run, RegistrationIp, settings, true),
                        ScopeLog(run, OidcIp, settings, true), op, settings)
  {
    forall scope
      ensures Within(ScopeLog(run, scope, settings, true), op, scope, settings) <==>
                (Touches(op, scope) ==> CountIn(run, op, scope, settings, true) < LimitOf(settings.limits, scope))
    {
    }
    VerdictScopeByScope(ScopeLog(run, EmailIp, settings, true), ScopeLog(run, Ip, settings, true),
                        ScopeLog(run, Email, settings, true), ScopeLog(run, RegistrationIp, settings, true),
                        ScopeLog(run, OidcIp, settings, true), op, settings);
  }

  /** A check: no log changes, and the verdict is read off the five logs. */
  method PerformCheck(limiter: M.InMemoryLoginRateLimiter, op: Operation, settings: Settings, ghost now: real)
    returns (allowed: bool)
    requires limiter.Valid(now) && Configured(limiter, settings)
    requires Checks(op) && now <= op.at
    modifies limiter.emailIp, limiter.byIp, limiter.byEmail, limiter.registrationIp, limiter.oidcIp
    ensures limiter.Valid(op.at)
    ensures limiter.emailIp.log == old(limiter.emailIp.log) && limiter.byIp.log == old(limiter.byIp.log)
    ensures limiter.byEmail.log == old(limiter.byEmail.log) && limiter.oidcIp.log == old(limiter.oidcIp.log)
    ensures limiter.registrationIp.log == old(limiter.registrationIp.log)
    ensures allowed <==> VerdictOn(limiter.emailIp.log, limiter.byIp.log, limiter.byEmail.log,
                                   limiter.registrationIp.log, limiter.oidcIp.log, op, settings)
  {
    match op
    case IsAllowed(ip, email, at) => allowed := limiter.IsAllowed(ip, email, at);
    case IsAccountDeletionReauthAllowed(ip, email, at) => allowed := limiter.IsAccountDeletionReauthAllowed(ip, email, at);
    case IsRegistrationAllowed(ip, at) => allowed := limiter.IsRegistrationAllowed(ip, at);
    case IsOidcAuthorizationAllowed(ip, at) => allowed := limiter.IsOidcAuthorizationAllowed(ip, at);
  }

  /** A record or a success: each of the five logs changes as the run's. */
  method PerformChange(limiter: M.InMemoryLoginRateLimiter, op: Operation, ghost run: seq<Operation>,
                       settings: Settings, ghost now: real)
    requires limiter.Valid(now) && Configured(limiter, settings) && HasRun(limiter, run, settings)
    requires !Checks(op) && (op.RecordSuccess? || now <= op.at)
    modifies limiter.emailIp, limiter.byIp, limiter.byEmail, limiter.registrationIp, limiter.oidcIp
    ensures limiter.Valid(if op.RecordSuccess? then now else op.at)
    ensures HasRun(limiter, run + [op], settings)
  {
    AllOneMore(run, op, settings);
    match op
    case RecordFailure(ip, email, includeEmailBucket, at) => limiter.RecordFailure(ip, email, includeEmailBucket, at);
    case RecordSuccess(ip, email) => limiter.RecordSuccess(ip, email, now);
    case RecordRegistration(ip, at) => limiter.RecordRegistration(ip, at);
    case RecordOidcAuthorization(ip, at) => limiter.RecordOidcAuthorization(ip, at);
  }

  /** A caller's whole run on the in-memory limiter: trimming and evicting change no verdict. */
  method MemoryVerdicts(run: seq<Operation>, settings: Settings) returns (verdicts: seq<bool>)
    requires InOrder(run)
    ensures verdicts == Verdicts(run, settings, true)
    ensures !DropsSome(run, settings) ==> verdicts == RedisVerdicts(run, settings)
    ensures !DropsSome(run, settings) && NoneConfused(run) ==> verdicts == PromisedVerdicts(run, settings)
  {
    var limiter :=
      new M.InMemoryLoginRateLimiter(settings.window, settings.registrationWindow, settings.limits, settings.cap);
    verdicts := [];
    for i := 0 to |run|
      invariant fresh({limiter.emailIp, limiter.byIp, limiter.byEmail, limiter.registrationIp, limiter.oidcIp})
      invariant Configured(limiter, settings) && limiter.Valid(LastAt(run[..i])) && HasRun(limiter, run[..i], settings)
      invariant verdicts == Verdicts(run[..i], settings, true)
    {
      assert run[..i + 1] == run[..i] + [run[i]] && run[..i + 1][..i] == run[..i];
      AllOneMore(run[..i], run[i], settings);
      if Checks(run[i]) {
        VerdictIsOnLogs(run[..i], run[i], settings);
        var allowed := PerformCheck(limiter, run[i], settings, LastAt(run[..i]));
        verdicts := verdicts + [allowed];
      } else {
        PerformChange(limiter, run[i], run[..i], settings, LastAt(run[..i]));
      }
    }
    assert run[..|run|] == run;
    LimitersAgree(run, settings);
  }
}
