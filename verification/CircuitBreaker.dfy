/** The circuit breaker around the Redis limiter, and the warnings it writes. */
module CircuitBreaker {
  import opened Basics

  datatype Outcome = Succeeded | Failed | PoolExhausted

  const POOL_WARNING_INTERVAL: real := 1.0

  /** What the warnings forget: the breaker is a failure count and the time it opened. */
  datatype State = State(failures: nat, openedAt: Option<real>)

  datatype Settings = Settings(threshold: nat, cooldown: real)

  predicate IsOpen(s: State, now: real, settings: Settings) {
    s.openedAt.Some? && now - s.openedAt.value < settings.cooldown
  }

  /** An operation starts: a cooled-down breaker closes, keeping its failure count. */
  function Started(s: State, now: real, settings: Settings): State {
    if IsOpen(s, now, settings) then s else s.(openedAt := None)
  }

  /** An operation that went through to Redis ends. */
  function Ended(s: State, outcome: Outcome, now: real, settings: Settings): State {
    match outcome
    case Succeeded => State(0, None)
    case PoolExhausted => s
    case Failed => State(s.failures + 1, if s.failures + 1 >= settings.threshold then Some(now) else s.openedAt)
  }

  ghost predicate Spaced(times: seq<real>, gap: real) {
    forall i :: 0 <= i < |times| - 1 ==> times[i + 1] - times[i] >= gap
  }

  /** Pool exhaustion is no failure; it is warned about when the latest such warning is old enough. */
  function PoolWarned(warnings: seq<real>, now: real): seq<real> {
    if warnings != [] && now - warnings[|warnings| - 1] < POOL_WARNING_INTERVAL then warnings else warnings + [now]
  }

  /** The fields of the limiter that belong to the breaker; the ghost fields count what it wrote and why. */
  class Breaker {
    const settings: Settings
    var consecutiveFailures: nat
    var circuitOpenedAt: Option<real>
    var openWarningLogged: bool
    var poolWarningLoggedAt: Option<real>
    ghost var countedFailures: nat
    ghost var warnings: nat
    ghost var poolWarnings: seq<real>

    ghost function Now(): State
      reads this
    {
      State(consecutiveFailures, circuitOpenedAt)
    }

    /** An open circuit has failures at the threshold and its warning written; warnings are failures. */
    ghost predicate Valid()
      reads this
    {
      && (circuitOpenedAt.Some? ==> consecutiveFailures >= settings.threshold && openWarningLogged)
      && warnings == countedFailures
      && Spaced(poolWarnings, POOL_WARNING_INTERVAL)
      && poolWarningLoggedAt == if poolWarnings == [] then None else Some(poolWarnings[|poolWarnings| - 1])
    }

    constructor (settings: Settings)
      ensures Valid() && Now() == State(0, None) && this.settings == settings
      ensures countedFailures == 0 && poolWarnings == []
    {
      this.settings := settings;
      consecutiveFailures, circuitOpenedAt, openWarningLogged, poolWarningLoggedAt := 0, None, false, None;
      countedFailures, warnings, poolWarnings := 0, 0, [];
    }

    method CircuitIsOpen(now: real) returns (open: bool)
      requires Valid()
      modifies this`circuitOpenedAt, this`openWarningLogged
      ensures Valid() && Now() == Started(old(Now()), now, settings)
      ensures open <==> old(circuitOpenedAt).Some? && now - old(circuitOpenedAt).value < settings.cooldown
      ensures consecutiveFailures == old(consecutiveFailures)
      ensures circuitOpenedAt == if open then old(circuitOpenedAt) else None
    {
      if circuitOpenedAt == None {
        return false;
      }
      if now - circuitOpenedAt.value < settings.cooldown {
        return true;
      }
      circuitOpenedAt, openWarningLogged := None, false;
      open := false;
    }

    /** The start of an operation: an open circuit answers without Redis and without another warning. */
    method Start(now: real) returns (goesThrough: bool)
      requires Valid()
      modifies this`circuitOpenedAt, this`openWarningLogged, this`warnings
      ensures Valid() && Now() == Started(old(Now()), now, settings)
      ensures goesThrough <==> !(old(circuitOpenedAt).Some? && now - old(circuitOpenedAt).value < settings.cooldown)
      ensures consecutiveFailures == old(consecutiveFailures) && warnings == old(warnings)
      ensures circuitOpenedAt == if goesThrough then None else old(circuitOpenedAt)
    {
      var open := CircuitIsOpen(now);
      if open {
        LogUnavailable();
      }
      goesThrough := !open;
    }

    /** The end of an operation that went through, in any order with other starts and ends. */
    method End(outcome: Outcome, now: real)
      requires Valid()
      modifies this
      ensures Valid() && Now() == Ended(old(Now()), outcome, now, settings)
      ensures consecutiveFailures == (if outcome.Succeeded? then 0 else old(consecutiveFailures))
                                     + if outcome.Failed? then 1 else 0
      ensures circuitOpenedAt == if outcome.Succeeded? then None
                                 else if outcome.Failed? && consecutiveFailures >= settings.threshold then Some(now)
                                 else old(circuitOpenedAt)
      ensures countedFailures == old(countedFailures) + if outcome.Failed? then 1 else 0
      ensures poolWarnings == if outcome.PoolExhausted? then PoolWarned(old(poolWarnings), now) else old(poolWarnings)
    {
      match outcome
      case Succeeded => MarkSuccess();
      case Failed => MarkFailure(now);
      case PoolExhausted => LogPoolExhaustion(now);
    }

    method MarkFailure(now: real)
      requires Valid()
      modifies this`consecutiveFailures, this`circuitOpenedAt, this`openWarningLogged, this`warnings, this`countedFailures
      ensures Valid() && Now() == Ended(old(Now()), Failed, now, settings)
      ensures countedFailures == old(countedFailures) + 1
    {
      consecutiveFailures := consecutiveFailures + 1;
      if consecutiveFailures >= settings.threshold {
        circuitOpenedAt, openWarningLogged := Some(now), false;
      }
      countedFailures := countedFailures + 1;
      LogUnavailable();
    }

    method MarkSuccess()
      requires Valid()
      modifies this`consecutiveFailures, this`circuitOpenedAt, this`openWarningLogged
      ensures Valid() && Now() == State(0, None)
    {
      consecutiveFailures, circuitOpenedAt, openWarningLogged := 0, None, false;
    }

    /** Writes a warning unless the circuit is open and its warning was written. */
    method LogUnavailable()
      modifies this`openWarningLogged, this`warnings
      ensures warnings == old(warnings) + if circuitOpenedAt.Some? && old(openWarningLogged) then 0 else 1
      ensures openWarningLogged == (circuitOpenedAt.Some? || old(openWarningLogged))
    {
      if circuitOpenedAt != None && openWarningLogged {
        return;
      }
      warnings := warnings + 1;
      if circuitOpenedAt != None {
        openWarningLogged := true;
      }
    }

    method LogPoolExhaustion(now: real)
      requires Valid()
      modifies this`poolWarningLoggedAt, this`poolWarnings
      ensures Valid()
      ensures poolWarnings == PoolWarned(old(poolWarnings), now)
      ensures poolWarnings != [] && now - poolWarnings[|poolWarnings| - 1] < POOL_WARNING_INTERVAL
    {
      if poolWarningLoggedAt != None && now - poolWarningLoggedAt.value < POOL_WARNING_INTERVAL {
        return;
      }
      poolWarnings := poolWarnings + [now];
      poolWarningLoggedAt := Some(now);
    }
  }

  // ----- starts and ends in any interleaving -----

  /** What a caller of the limiter sees of one operation: its start, and the end of its Redis call. */
  datatype Event = Begins(at: real) | Ends(outcome: Outcome, at: real)

  ghost predicate InOrder(events: seq<Event>) {
    forall i, j :: 0 <= i < j < |events| ==> events[i].at <= events[j].at
  }

  /** The failures since the latest success. */
  function Failures(events: seq<Event>): nat {
    if events == [] then 0
    else
      var before, last := Failures(events[..|events| - 1]), events[|events| - 1];
      if last.Begins? || last.outcome.PoolExhausted? then before
      else if last.outcome.Succeeded? then 0
      else before + 1
  }

  /** When the latest of them ended. */
  function LatestFailure(events: seq<Event>): Option<real> {
    if events == [] then None
    else
      var last := events[|events| - 1];
      if last.Begins? || last.outcome.PoolExhausted? then LatestFailure(events[..|events| - 1])
      else if last.outcome.Succeeded? then None
      else Some(last.at)
  }

  /** The threshold was met since the latest success, and the latest failure is less than a cooldown ago. */
  predicate ShortCircuits(events: seq<Event>, now: real, settings: Settings) {
    var latest := LatestFailure(events);
    latest.Some? && Failures(events) >= settings.threshold && now - latest.value < settings.cooldown
  }

  /**
   A breaker from its construction through any interleaving of starts and ends.  It answers without Redis exactly
   while the history demands it: so a start a cooldown or more after the latest failure goes through, and after a
   success nothing before it matters.
   */
  method Goings(events: seq<Event>, settings: Settings) returns (goings: seq<bool>)
    requires InOrder(events)
    ensures |goings| == |events|
    ensures forall i :: 0 <= i < |events| && events[i].Begins? ==>
              (goings[i] <==> !ShortCircuits(events[..i], events[i].at, settings))
  {
    var breaker := new Breaker(settings);
    goings := [];
    for i := 0 to |events|
      invariant fresh(breaker) && breaker.Valid() && breaker.settings == settings
      invariant breaker.consecutiveFailures == Failures(events[..i])
      invariant breaker.circuitOpenedAt.Some? ==> breaker.circuitOpenedAt == LatestFailure(events[..i])
      invariant breaker.circuitOpenedAt == None ==> Recovered(events, i, settings)
      invariant |goings| == i
      invariant forall k :: 0 <= k < i && events[k].Begins? ==>
                  (goings[k] <==> !ShortCircuits(events[..k], events[k].at, settings))
    {
      assert events[..i + 1][..i] == events[..i];
      match events[i]
      case Begins(at) =>
        var goesThrough := breaker.Start(at);
        goings := goings + [goesThrough];
      case Ends(outcome, at) =>
        breaker.End(outcome, at);
        goings := goings + [true];
    }
  }

  /** No event from the i-th on can be short-circuited by what came before it. */
  ghost predicate Recovered(events: seq<Event>, i: nat, settings: Settings)
    requires i <= |events|
  {
    forall j :: i <= j < |events| ==> !ShortCircuits(events[..i], events[j].at, settings)
  }

  // ----- a sequential outage -----

  /** One operation of the outage: when it starts, and when and how its Redis call, if it makes one, ends. */
  datatype Call = Call(start: real, end: real, outcome: Outcome)

  /** The calls follow each other, none before `from` and none after `to`, and none succeeds. */
  predicate Outage(calls: seq<Call>, from: real, to: real) {
    if calls == [] then from <= to
    else
      && from <= calls[0].start <= calls[0].end && !calls[0].outcome.Succeeded?
      && Outage(calls[1..], calls[0].end, to)
  }

  /** How many calls reach Redis and fail there; an exhausted pool is not counted as a failure. */
  function FailedCalls(s: State, calls: seq<Call>, settings: Settings): nat
    decreases |calls|
  {
    if calls == [] then 0
    else if IsOpen(s, calls[0].start, settings) then FailedCalls(s, calls[1..], settings)
    else
      (if calls[0].outcome.Failed? then 1 else 0) + FailedCalls(AfterCall(s, calls[0], settings), calls[1..], settings)
  }

  /** The breaker after a call that went through. */
  function AfterCall(s: State, call: Call, settings: Settings): State {
    Ended(Started(s, call.start, settings), call.outcome, call.end, settings)
  }

  /** Failures left before the breaker opens: at least one while it is closed. */
  function UntilOpen(s: State, settings: Settings): nat {
    if s.openedAt.Some? then 0
    else if s.failures >= settings.threshold then 1
    else settings.threshold - s.failures
  }

  lemma {:induction false} OutageSpan(calls: seq<Call>, from: real, to: real)
    requires Outage(calls, from, to)
    ensures from <= to
  {
    if calls != [] {
      OutageSpan(calls[1..], calls[0].end, to);
    }
  }

  lemma OneMoreCooldown(n: nat, cooldown: real, openedAt: real, reopened: real, to: real)
    requires n as real * cooldown <= to - reopened && reopened - openedAt >= cooldown
    ensures (n + 1) as real * cooldown <= to - openedAt
  {
    assert (n + 1) as real == n as real + 1.0;
    assert (n as real + 1.0) * cooldown == n as real * cooldown + cooldown;
  }

  /** Failed calls beyond the free ones cost a cooldown each. */
  predicate Costs(n: nat, free: nat, cooldown: real, span: real) {
    n > free ==> (n - free) as real * cooldown <= span
  }

  /**
   Beyond the failures that open it, an outage costs one failed call per cooldown.  A call that finds the pool
   exhausted closes a cooled-down breaker and counts nothing; the next failure opens it again at once.
   */
  lemma {:induction false} FailuresAreSpaced(s: State, calls: seq<Call>, settings: Settings, from: real, to: real)
    requires settings.cooldown > 0.0 && settings.threshold >= 1
    requires Outage(calls, from, to)
    requires s.openedAt.Some? ==> s.failures >= settings.threshold && s.openedAt.value <= from
    ensures Costs(FailedCalls(s, calls, settings), UntilOpen(s, settings), settings.cooldown,
                  to - if s.openedAt.Some? then s.openedAt.value else from)
    decreases |calls|
  {
    if calls != [] {
      var call := calls[0];
      OutageSpan(calls[1..], call.end, to);
      if IsOpen(s, call.start, settings) {
        FailuresAreSpaced(s, calls[1..], settings, call.end, to);
      } else {
        var after := AfterCall(s, call, settings);
        FailuresAreSpaced(after, calls[1..], settings, call.end, to);
        var n := FailedCalls(after, calls[1..], settings);
        if s.openedAt.Some? && call.outcome.Failed? {
          assert n == 0 ==> n as real * settings.cooldown == 0.0;
          OneMoreCooldown(n, settings.cooldown, s.openedAt.value, call.end, to);
        } else if s.openedAt.Some? && n > 0 {
          assert n == 1 ==> (n - 1) as real * settings.cooldown == 0.0;
          OneMoreCooldown(n - 1, settings.cooldown, s.openedAt.value, call.end, to);
        } else if s.openedAt == None && call.outcome.Failed? {
          assert n + 1 - UntilOpen(s, settings) == n - UntilOpen(after, settings);
        }
      }
    }
  }

  /**
   In an outage of length D, whatever the breaker's state when it begins and whatever calls find the pool exhausted,
   at most threshold + floor(D / cooldown) sequential calls reach Redis and fail.
   */
  lemma OutageCost(s: State, calls: seq<Call>, settings: Settings, from: real, to: real)
    requires settings.cooldown > 0.0 && settings.threshold >= 1
    requires Outage(calls, from, to)
    requires s.openedAt.Some? ==> s.failures >= settings.threshold && s.openedAt.value <= from
    ensures FailedCalls(s, calls, settings) <= settings.threshold + ((to - from) / settings.cooldown).Floor
  {
    OutageSpan(calls, from, to);
    if s.openedAt == None {
      FailuresAreSpaced(s, calls, settings, from, to);
      FloorBound(FailedCalls(s, calls, settings), UntilOpen(s, settings), settings.cooldown, to - from);
    } else {
      OpenOutage(s, calls, settings, from, to);
    }
  }

  lemma FloorBound(n: nat, free: nat, cooldown: real, span: real)
    requires cooldown > 0.0 && span >= 0.0
    requires Costs(n, free, cooldown, span)
    ensures n <= free + (span / cooldown).Floor
  {
    if n > free {
      assert span / cooldown >= (n - free) as real;
    } else {
      assert span / cooldown >= 0.0;
    }
  }

  /** An outage that begins with the breaker open is cheaper: failures are at the threshold from the start. */
  lemma {:induction false} OpenOutage(s: State, calls: seq<Call>, settings: Settings, from: real, to: real)
    requires settings.cooldown > 0.0 && settings.threshold >= 1
    requires Outage(calls, from, to)
    requires s.openedAt.Some? && s.failures >= settings.threshold && s.openedAt.value <= from
    ensures FailedCalls(s, calls, settings) <= 1 + ((to - from) / settings.cooldown).Floor
    decreases |calls|
  {
    OutageSpan(calls, from, to);
    FloorBound(0, 0, settings.cooldown, to - from);
    if calls != [] {
      var call := calls[0];
      OutageSpan(calls[1..], call.end, to);
      if IsOpen(s, call.start, settings) {
        OpenOutage(s, calls[1..], settings, call.end, to);
        FloorMonotone(to - call.end, to - from, settings.cooldown);
      } else {
        var after := AfterCall(s, call, settings);
        FailuresAreSpaced(after, calls[1..], settings, call.end, to);
        FloorBound(FailedCalls(after, calls[1..], settings), UntilOpen(after, settings), settings.cooldown, to - call.end);
        FloorMonotone(to - call.end, to - from, settings.cooldown);
      }
    }
  }

  lemma FloorMonotone(a: real, b: real, cooldown: real)
    requires cooldown > 0.0 && a <= b
    ensures (a / cooldown).Floor <= (b / cooldown).Floor
  {
    assert a / cooldown <= b / cooldown;
  }
}
