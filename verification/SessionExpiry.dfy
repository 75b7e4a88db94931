/**
 Session lifetimes: an absolute and an idle limit, the second moved by touches that are skipped within an
 interval.  Times are microseconds; what the database stores, and what a query compares a stored time with,
 is cut to whole milliseconds.
 */
module SessionExpiry {

  const SECOND := 1_000_000
  const MILLISECOND := 1000

  type Time = int

  /** A time as the database keeps it. */
  function Stored(at: Time): Time {
    at / MILLISECOND * MILLISECOND
  }

  datatype Settings = Settings(absoluteTtl: int, idleTtl: int, touchInterval: int)

  /** What the settings validators demand; the touch interval is free. */
  predicate ValidSettings(settings: Settings) {
    settings.absoluteTtl >= 1 && settings.idleTtl >= 1
  }

  function Min(a: int, b: int): int {
    if a <= b then a else b
  }

  function CalculateSessionExpiry(settings: Settings, issuedAt: Time, lastSeenAt: Time): Time {
    Min(issuedAt + settings.absoluteTtl * SECOND, lastSeenAt + settings.idleTtl * SECOND)
  }

  /** Positive idle TTLs only, so the halving rounds down. */
  function EffectiveTouchInterval(settings: Settings): int {
    if settings.touchInterval <= 0 then settings.touchInterval
    else if settings.touchInterval >= settings.idleTtl / 2 then settings.idleTtl / 2
    else settings.touchInterval
  }

  /** Skipping can be switched off; otherwise a touch waits as configured, but for at most half the idle TTL. */
  lemma TouchIntervalIsSafe(settings: Settings)
    ensures settings.touchInterval <= 0 ==> EffectiveTouchInterval(settings) <= 0
    ensures settings.touchInterval > 0 ==>
              EffectiveTouchInterval(settings) == Min(settings.touchInterval, settings.idleTtl / 2)
  {
  }

  /** The times of a stored session. */
  datatype Times = Times(issuedAt: Time, lastSeenAt: Time, expiresAt: Time)

  function Issued(settings: Settings, at: Time): Times {
    Times(Stored(at), Stored(at), Stored(CalculateSessionExpiry(settings, at, at)))
  }

  /** The query for an active session: `expires_at > now`. */
  predicate Active(t: Times, now: Time) {
    t.expiresAt > Stored(now)
  }

  predicate TouchDue(settings: Settings, t: Times, now: Time) {
    var interval := EffectiveTouchInterval(settings);
    interval <= 0 || now - t.lastSeenAt >= interval * SECOND
  }

  /** `touch_session` after `calculate_session_expiry(issued_at, now)`. */
  function Touched(settings: Settings, t: Times, now: Time): Times {
    Times(t.issuedAt, Stored(now), Stored(CalculateSessionExpiry(settings, t.issuedAt, now)))
  }

  function AfterRequest(settings: Settings, t: Times, now: Time): Times {
    if TouchDue(settings, t, now) then Touched(settings, t, now) else t
  }

  /** The expiry a stored session promises. */
  predicate KeepsExpiry(settings: Settings, t: Times) {
    && Stored(t.issuedAt) == t.issuedAt && Stored(t.lastSeenAt) == t.lastSeenAt
    && t.expiresAt == CalculateSessionExpiry(settings, t.issuedAt, t.lastSeenAt)
  }

  lemma StoredBounds(at: Time)
    ensures Stored(at) <= at < Stored(at) + MILLISECOND
    ensures Stored(Stored(at)) == Stored(at)
  {
  }

  /** Cutting to milliseconds commutes with adding whole seconds. */
  lemma StoredShift(at: Time, seconds: int)
    ensures Stored(at + seconds * SECOND) == Stored(at) + seconds * SECOND
  {
    assert (at + seconds * SECOND) / MILLISECOND == at / MILLISECOND + seconds * 1000;
  }

  lemma StoredMonotone(a: Time, b: Time)
    requires a <= b
    ensures Stored(a) <= Stored(b)
  {
  }

  /** The expiry formula survives storage: issuing and touching give a session that keeps it. */
  lemma StoredExpiry(settings: Settings, issuedAt: Time, lastSeenAt: Time)
    ensures Stored(CalculateSessionExpiry(settings, issuedAt, lastSeenAt))
         == CalculateSessionExpiry(settings, Stored(issuedAt), Stored(lastSeenAt))
  {
    StoredShift(issuedAt, settings.absoluteTtl);
    StoredShift(lastSeenAt, settings.idleTtl);
    var a, b := issuedAt + settings.absoluteTtl * SECOND, lastSeenAt + settings.idleTtl * SECOND;
    if a <= b {
      StoredMonotone(a, b);
    } else {
      StoredMonotone(b, a);
    }
  }

  lemma IssuedKeepsExpiry(settings: Settings, at: Time)
    ensures KeepsExpiry(settings, Issued(settings, at))
  {
    StoredBounds(at);
    StoredExpiry(settings, at, at);
  }

  lemma TouchKeepsExpiry(settings: Settings, t: Times, now: Time)
    requires KeepsExpiry(settings, t)
    ensures KeepsExpiry(settings, Touched(settings, t, now)) && KeepsExpiry(settings, AfterRequest(settings, t, now))
  {
    StoredBounds(now);
    StoredExpiry(settings, t.issuedAt, now);
  }

  // ----- sessions in use -----

  /** The requests of one session, up to and including the first that finds it expired. */
  function Accepted(settings: Settings, t: Times, requests: seq<Time>): nat
    decreases |requests|
  {
    if requests == [] || !Active(t, requests[0]) then 0
    else 1 + Accepted(settings, AfterRequest(settings, t, requests[0]), requests[1..])
  }

  /** How long a session can be older than its stored last use says. */
  function Slack(settings: Settings): int {
    var interval := EffectiveTouchInterval(settings) * SECOND;
    if interval > MILLISECOND then interval else MILLISECOND
  }

  /** Requests that follow each other, and `from`, within `gap`. */
  predicate WithinGaps(requests: seq<Time>, from: Time, gap: int) {
    requests == [] || (from <= requests[0] <= from + gap && WithinGaps(requests[1..], requests[0], gap))
  }

  lemma {:induction false} UseKeepsAlive(settings: Settings, t: Times, from: Time, requests: seq<Time>)
    requires KeepsExpiry(settings, t)
    requires t.lastSeenAt <= from < t.lastSeenAt + Slack(settings)
    requires WithinGaps(requests, from, settings.idleTtl * SECOND - Slack(settings))
    requires forall i :: 0 <= i < |requests| ==> requests[i] < t.issuedAt + settings.absoluteTtl * SECOND
    ensures Accepted(settings, t, requests) == |requests|
    decreases |requests|
  {
    if requests != [] {
      var now := requests[0];
      StoredBounds(now);
      TouchKeepsExpiry(settings, t, now);
      UseKeepsAlive(settings, AfterRequest(settings, t, now), now, requests[1..]);
    }
  }

  /**
   A session whose requests come within the idle TTL less the slack (the effective touch interval, or one
   millisecond when touches are not skipped) stays valid until its absolute limit.
   */
  lemma SteadyUseLastsToAbsoluteLimit(settings: Settings, issuedAt: Time, requests: seq<Time>)
    requires ValidSettings(settings)
    requires WithinGaps(requests, issuedAt, settings.idleTtl * SECOND - Slack(settings))
    requires forall i :: 0 <= i < |requests| ==> requests[i] < Stored(issuedAt) + settings.absoluteTtl * SECOND
    ensures Accepted(settings, Issued(settings, issuedAt), requests) == |requests|
  {
    IssuedKeepsExpiry(settings, issuedAt);
    StoredBounds(issuedAt);
    UseKeepsAlive(settings, Issued(settings, issuedAt), issuedAt, requests);
  }

  /** No request is accepted at or after the absolute limit. */
  lemma {:induction false} NothingPastAbsoluteLimit(settings: Settings, t: Times, requests: seq<Time>, i: nat)
    requires KeepsExpiry(settings, t) && i < Accepted(settings, t, requests)
    ensures i < |requests| && requests[i] < t.issuedAt + settings.absoluteTtl * SECOND
    decreases |requests|
  {
    StoredBounds(requests[0]);
    TouchKeepsExpiry(settings, t, requests[0]);
    LimitIsStored(t.issuedAt, settings.absoluteTtl, requests[0]);
    if i > 0 {
      NothingPastAbsoluteLimit(settings, AfterRequest(settings, t, requests[0]), requests[1..], i - 1);
    }
  }

  lemma LimitIsStored(issuedAt: Time, ttl: int, now: Time)
    requires Stored(issuedAt) == issuedAt && Stored(now) < issuedAt + ttl * SECOND
    ensures now < issuedAt + ttl * SECOND
  {
    StoredShift(issuedAt, ttl);
    if now >= issuedAt + ttl * SECOND {
      StoredMonotone(issuedAt + ttl * SECOND, now);
    }
  }

  /** The bound is exact: one microsecond more between two requests and the session can be lost. */
  lemma OneMicrosecondMoreCanExpire(settings: Settings)
    requires ValidSettings(settings) && settings.absoluteTtl > settings.idleTtl
    ensures exists issuedAt, requests ::
              && WithinGaps(requests, issuedAt, settings.idleTtl * SECOND - Slack(settings) + 1)
              && (forall i :: 0 <= i < |requests| ==> requests[i] < Stored(issuedAt) + settings.absoluteTtl * SECOND)
              && Accepted(settings, Issued(settings, issuedAt), requests) < |requests|
  {
    var idle, slack := settings.idleTtl * SECOND, Slack(settings);
    assert slack <= idle / 2 || slack == MILLISECOND;
    if slack > MILLISECOND {
      var requests := [slack - 1, idle];
      IssuedKeepsExpiry(settings, 0);
      StoredShift(0, settings.idleTtl);
      assert Stored(0) == 0 && Stored(idle) == idle;
      assert requests[1..] == [idle] && [idle][1..] == [];
      assert WithinGaps([idle], slack - 1, idle - slack + 1);
      assert WithinGaps(requests, 0, idle - slack + 1);
      var t := Issued(settings, 0);
      assert !TouchDue(settings, t, slack - 1);
      assert !Active(t, idle);
      assert Accepted(settings, t, [idle]) == 0;
      assert Accepted(settings, t, requests) < |requests|;
    } else {
      var requests := [idle];
      IssuedKeepsExpiry(settings, 999);
      StoredShift(0, settings.idleTtl);
      assert Stored(999) == 0 && Stored(idle) == idle;
      assert requests[1..] == [];
      assert WithinGaps(requests, 999, idle - slack + 1);
      assert Accepted(settings, Issued(settings, 999), requests) == 0;
    }
  }
}
