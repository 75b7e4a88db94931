/**
 The Redis limiter as a protocol.  An operation reads the server TIME in one step and runs its pipeline in
 later steps: a check runs one ZCOUNT per key, each on its own; a record runs ZREMRANGEBYSCORE, ZADD and
 EXPIRE for all its keys in one MULTI.  Any number of clients interleave, keys expire, operations are cut off.
 */
module RedisSlidingWindow {
  import opened RateLimitLog

  /** A sorted set: its scores, and the time at which EXPIRE lets the server remove it. */
  datatype ZSet = ZSet(scores: seq<real>, deadline: real)

  type Store = map<string, ZSet>

  /** The window of each key, in seconds: all keys of one operation have the same. */
  type Windows = string -> nat

  datatype Client =
    | Idle
    | Checking(keys: seq<string>, readAt: real, counts: seq<nat>)
    | Recording(keys: seq<string>, readAt: real)

  /** `log` is history only: the uncleared events in the order in which the server executed them. */
  datatype World = World(now: real, store: Store, clients: map<nat, Client>, log: Log)

  datatype Step =
    | Advance(to: real)
    | ReadTimeForCheck(client: nat, checked: seq<string>)
    | CountNext(client: nat)
    | ReadTimeForRecord(client: nat, recorded: seq<string>)
    | ExecuteRecord(client: nat)
    | Delete(key: string)
    | Expire(key: string)
    | CutOff(client: nat)

  function Scores(store: Store, key: string): seq<real> {
    if key in store then store[key].scores else []
  }

  function ZCount(store: Store, key: string, windowStart: real): nat {
    CountFrom(Scores(store, key), windowStart)
  }

  /** ZREMRANGEBYSCORE key -inf (windowStart: what is left. */
  function Remaining(scores: seq<real>, windowStart: real): seq<real> {
    if scores == [] then []
    else
      var last := scores[|scores| - 1];
      Remaining(scores[..|scores| - 1], windowStart) + if last >= windowStart then [last] else []
  }

  /** One key of a record pipeline. */
  function RecordKey(store: Store, key: string, readAt: real, now: real, window: nat): Store {
    store[key := ZSet(Remaining(Scores(store, key), readAt - window as real) + [readAt], now + (window + 1) as real)]
  }

  /** The whole MULTI of a record. */
  function RecordKeys(store: Store, keys: seq<string>, readAt: real, now: real, windows: Windows): Store {
    if keys == [] then store
    else
      var key := keys[|keys| - 1];
      RecordKey(RecordKeys(store, keys[..|keys| - 1], readAt, now, windows), key, readAt, now, windows(key))
  }

  function LogKeys(log: Log, keys: seq<string>, readAt: real): Log {
    if keys == [] then log
    else LogKeys(log, keys[..|keys| - 1], readAt) + [Event(keys[|keys| - 1], readAt)]
  }

  function ClientOf(w: World, client: nat): Client {
    if client in w.clients then w.clients[client] else Idle
  }

  predicate Enabled(w: World, step: Step) {
    match step
    case Advance(to) => to >= w.now
    case ReadTimeForCheck(client, _) => ClientOf(w, client).Idle?
    case CountNext(client) =>
      var c := ClientOf(w, client);
      c.Checking? && |c.counts| < |c.keys|
    case ReadTimeForRecord(client, _) => ClientOf(w, client).Idle?
    case ExecuteRecord(client) => ClientOf(w, client).Recording?
    case Delete(_) => true
    case Expire(key) => key in w.store && w.now >= w.store[key].deadline
    case CutOff(client) => client in w.clients
  }

  function Next(w: World, step: Step, windows: Windows): World
    requires Enabled(w, step)
  {
    match step
    case Advance(to) => w.(now := to)
    case ReadTimeForCheck(client, keys) => w.(clients := w.clients[client := Checking(keys, w.now, [])])
    case CountNext(client) =>
      var c := w.clients[client];
      w.(clients := w.clients[client := c.(counts := c.counts + [CountReturned(w, client, windows)])])
    case ReadTimeForRecord(client, keys) => w.(clients := w.clients[client := Recording(keys, w.now)])
    case ExecuteRecord(client) =>
      var c := w.clients[client];
      w.(store := RecordKeys(w.store, c.keys, c.readAt, w.now, windows),
         log := LogKeys(w.log, c.keys, c.readAt),
         clients := w.clients - {client})
    case Delete(key) => w.(store := w.store - {key}, log := Clear(w.log, key))
    case Expire(key) => w.(store := w.store - {key})
    case CutOff(client) => w.(clients := w.clients - {client})
  }

  /** The number a pending check is told for its next key. */
  function CountReturned(w: World, client: nat, windows: Windows): nat
    requires Enabled(w, CountNext(client))
  {
    var c := w.clients[client];
    var key := c.keys[|c.counts|];
    ZCount(w.store, key, c.readAt - windows(key) as real)
  }

  const Start := World(0.0, map[], map[], [])

  /** A step that is not enabled when its turn comes does not happen. */
  function Do(w: World, step: Step, windows: Windows): World {
    if Enabled(w, step) then Next(w, step, windows) else w
  }

  /** Where a schedule leads from a given world. */
  function RunFrom(w: World, steps: seq<Step>, windows: Windows): World
    decreases |steps|
  {
    if steps == [] then w else RunFrom(Do(w, steps[0], windows), steps[1..], windows)
  }

  function Run(steps: seq<Step>, windows: Windows): World {
    RunFrom(Start, steps, windows)
  }

  // ----- the invariant -----

  /** The stored set answers every live count as the log does, and never counts more. */
  ghost predicate KeyStands(store: Store, log: Log, key: string, now: real, window: nat) {
    && (forall since :: since >= now - window as real ==> ZCount(store, key, since) == CountSince(log, key, since))
    && (forall since :: ZCount(store, key, since) <= CountSince(log, key, since))
    && (key in store ==> CountAfter(log, key, store[key].deadline - (window + 1) as real) == 0)
  }

  /** How many events of `key` are strictly after `t`. */
  function CountAfter(log: Log, key: string, t: real): nat {
    if log == [] then 0
    else
      var last := log[|log| - 1];
      CountAfter(log[..|log| - 1], key, t) + if last.key == key && last.at > t then 1 else 0
  }

  ghost predicate Consistent(w: World, windows: Windows) {
    && (forall key :: KeyStands(w.store, w.log, key, w.now, windows(key)))
    && (forall key :: CountAfter(w.log, key, w.now) == 0)
    && (forall client :: client in w.clients && !w.clients[client].Idle? ==> w.clients[client].readAt <= w.now)
  }

  lemma {:induction false} RemainingCounts(scores: seq<real>, windowStart: real, since: real)
    ensures CountFrom(Remaining(scores, windowStart), since)
         == CountFrom(scores, if windowStart > since then windowStart else since)
  {
    if scores != [] {
      var n := |scores| - 1;
      RemainingCounts(scores[..n], windowStart, since);
      if scores[n] >= windowStart {
        CountFromAppend(Remaining(scores[..n], windowStart), scores[n], since);
      } else {
        assert Remaining(scores[..n], windowStart) + [] == Remaining(scores[..n], windowStart);
      }
    }
  }

  lemma {:induction false} CountAfterMonotone(log: Log, key: string, lo: real, hi: real)
    requires lo <= hi
    ensures CountAfter(log, key, hi) <= CountAfter(log, key, lo)
  {
    if log != [] {
      CountAfterMonotone(log[..|log| - 1], key, lo, hi);
    }
  }

  lemma {:induction false} CountSinceBelowCountAfter(log: Log, key: string, t: real, since: real)
    requires t < since
    ensures CountSince(log, key, since) <= CountAfter(log, key, t)
  {
    if log != [] {
      CountSinceBelowCountAfter(log[..|log| - 1], key, t, since);
    }
  }

  lemma {:induction false} CountAfterClear(log: Log, cleared: string, key: string, t: real)
    ensures CountAfter(Clear(log, cleared), key, t) <= CountAfter(log, key, t)
  {
    if log != [] {
      var n := |log| - 1;
      CountAfterClear(log[..n], cleared, key, t);
      if log[n].key != cleared {
        CountAfterAppend(Clear(log[..n], cleared), log[n], key, t);
      } else {
        assert Clear(log[..n], cleared) + [] == Clear(log[..n], cleared);
      }
    }
  }

  lemma CountAfterAppend(log: Log, e: Event, key: string, t: real)
    ensures CountAfter(log + [e], key, t) == CountAfter(log, key, t) + if e.key == key && e.at > t then 1 else 0
  {
    assert (log + [e])[..|log|] == log;
  }

  /** Recording one key, however late its pipeline runs, keeps that key right. */
  lemma RecordedKeyStands(store: Store, log: Log, key: string, readAt: real, now: real, window: nat)
    requires KeyStands(store, log, key, now, window) && CountAfter(log, key, now) == 0
    requires readAt <= now
    ensures KeyStands(RecordKey(store, key, readAt, now, window), log + [Event(key, readAt)], key, now, window)
  {
    var after := RecordKey(store, key, readAt, now, window);
    var logged := log + [Event(key, readAt)];
    forall since
      ensures ZCount(after, key, since) <= CountSince(logged, key, since)
      ensures since >= now - window as real ==> ZCount(after, key, since) == CountSince(logged, key, since)
    {
      var cut := readAt - window as real;
      var from := if cut > since then cut else since;
      assert ZCount(store, key, from) <= CountSince(log, key, from);
      assert ZCount(store, key, since) <= CountSince(log, key, since);
      RecordedCount(Scores(store, key), log, key, readAt, cut, from, since);
    }
    assert after[key].deadline - (window + 1) as real == now;
    CountAfterAppend(log, Event(key, readAt), key, now);
  }

  /** It does not touch any other key. */
  lemma OtherKeyStands(store: Store, log: Log, key: string, readAt: real, now: real, recorded: nat, k: string, window: nat)
    requires KeyStands(store, log, k, now, window) && k != key
    ensures KeyStands(RecordKey(store, key, readAt, now, recorded), log + [Event(key, readAt)], k, now, window)
  {
    var after := RecordKey(store, key, readAt, now, recorded);
    forall since
      ensures ZCount(after, k, since) == ZCount(store, k, since)
      ensures CountSince(log + [Event(key, readAt)], k, since) == CountSince(log, k, since)
    {
      CountSinceAppend(log, Event(key, readAt), k, since);
    }
    if k in after {
      CountAfterAppend(log, Event(key, readAt), k, after[k].deadline - (window + 1) as real);
    }
  }

  lemma RecordedCount(scores: seq<real>, log: Log, key: string, readAt: real, cut: real, from: real, since: real)
    requires from == (if cut > since then cut else since)
    requires CountFrom(scores, from) <= CountSince(log, key, from)
    requires cut <= since ==> CountFrom(scores, since) <= CountSince(log, key, since)
    ensures var count := CountFrom(Remaining(scores, cut) + [readAt], since);
            var logged := CountSince(log + [Event(key, readAt)], key, since);
            && count <= logged
            && (cut <= since && CountFrom(scores, since) == CountSince(log, key, since) ==> count == logged)
  {
    CountSinceAppend(log, Event(key, readAt), key, since);
    RemainingCounts(scores, cut, since);
    CountFromAppend(Remaining(scores, cut), readAt, since);
    CountSinceMonotone(log, key, since, from);
  }

  lemma {:induction false} RecordKeysStand(store: Store, log: Log, keys: seq<string>, readAt: real, now: real,
                                           windows: Windows, k: string)
    requires KeyStands(store, log, k, now, windows(k)) && CountAfter(log, k, now) == 0
    requires readAt <= now
    ensures KeyStands(RecordKeys(store, keys, readAt, now, windows), LogKeys(log, keys, readAt), k, now, windows(k))
    ensures CountAfter(LogKeys(log, keys, readAt), k, now) == 0
  {
    if keys != [] {
      var n := |keys| - 1;
      var before, logged := RecordKeys(store, keys[..n], readAt, now, windows), LogKeys(log, keys[..n], readAt);
      RecordKeysStand(store, log, keys[..n], readAt, now, windows, k);
      if k == keys[n] {
        RecordedKeyStands(before, logged, k, readAt, now, windows(k));
      } else {
        OtherKeyStands(before, logged, keys[n], readAt, now, windows(keys[n]), k, windows(k));
      }
      CountAfterAppend(logged, Event(keys[n], readAt), k, now);
    }
  }

  /** A set past its deadline holds nothing that is still in the window. */
  lemma ExpiredHoldsNothingLive(w: World, key: string, window: nat, since: real)
    requires KeyStands(w.store, w.log, key, w.now, window)
    requires key in w.store && w.now >= w.store[key].deadline && since >= w.now - window as real
    ensures CountSince(w.log, key, since) == 0 && ZCount(w.store, key, since) == 0
  {
    CountSinceBelowCountAfter(w.log, key, w.store[key].deadline - (window + 1) as real, since);
  }

  lemma StepIsConsistent(w: World, step: Step, windows: Windows)
    requires Consistent(w, windows) && Enabled(w, step)
    ensures Consistent(Next(w, step, windows), windows)
  {
    var after := Next(w, step, windows);
    forall key
      ensures KeyStands(after.store, after.log, key, after.now, windows(key)) && CountAfter(after.log, key, after.now) == 0
    {
      assert KeyStands(w.store, w.log, key, w.now, windows(key)) && CountAfter(w.log, key, w.now) == 0;
      match step
      case Advance(to) => CountAfterMonotone(w.log, key, w.now, to);
      case ExecuteRecord(client) =>
        RecordKeysStand(w.store, w.log, w.clients[client].keys, w.clients[client].readAt, w.now, windows, key);
      case Delete(cleared) => DeleteStands(w, cleared, key, windows(key));
      case Expire(expired) => ExpireStands(w, expired, key, windows(key));
      case _ =>
    }
  }

  lemma DeleteStands(w: World, cleared: string, key: string, window: nat)
    requires KeyStands(w.store, w.log, key, w.now, window) && CountAfter(w.log, key, w.now) == 0
    ensures KeyStands(w.store - {cleared}, Clear(w.log, cleared), key, w.now, window)
    ensures CountAfter(Clear(w.log, cleared), key, w.now) == 0
  {
    forall since
      ensures CountSince(Clear(w.log, cleared), key, since) == if key == cleared then 0 else CountSince(w.log, key, since)
    {
      ClearCounts(w.log, cleared, key, since);
    }
    CountAfterClear(w.log, cleared, key, w.now);
    if key in w.store {
      CountAfterClear(w.log, cleared, key, w.store[key].deadline - (window + 1) as real);
    }
  }

  lemma ExpireStands(w: World, expired: string, key: string, window: nat)
    requires KeyStands(w.store, w.log, key, w.now, window)
    requires expired in w.store && w.now >= w.store[expired].deadline
    ensures KeyStands(w.store - {expired}, w.log, key, w.now, window)
  {
    if key == expired {
      forall since | since >= w.now - window as real ensures CountSince(w.log, key, since) == 0 {
        ExpiredHoldsNothingLive(w, key, window, since);
      }
    }
  }

  lemma {:induction false} RunFromIsConsistent(w: World, steps: seq<Step>, windows: Windows)
    requires Consistent(w, windows)
    ensures Consistent(RunFrom(w, steps, windows), windows)
    decreases |steps|
  {
    if steps != [] {
      if Enabled(w, steps[0]) {
        StepIsConsistent(w, steps[0], windows);
      }
      RunFromIsConsistent(Do(w, steps[0], windows), steps[1..], windows);
    }
  }

  lemma StartIsConsistent(windows: Windows)
    ensures Consistent(Start, windows)
  {
    assert forall key, since :: CountSince([], key, since) == 0;
  }

  lemma RunIsConsistent(steps: seq<Step>, windows: Windows)
    ensures Consistent(Run(steps, windows), windows)
  {
    StartIsConsistent(windows);
    RunFromIsConsistent(Start, steps, windows);
  }

  // ----- the theorems -----

  /**
   After any interleaving, the count a check is told for a key is at least the number of uncleared events in
   the window when ZCOUNT runs, and at most the number in the window that began when its TIME was read.
   */
  lemma CountsAreBounded(steps: seq<Step>, client: nat, windows: Windows)
    requires Enabled(Run(steps, windows), CountNext(client))
    ensures var w := Run(steps, windows);
            var c := w.clients[client];
            var key := c.keys[|c.counts|];
            && CountSince(w.log, key, w.now - windows(key) as real) <= CountReturned(w, client, windows)
            && CountReturned(w, client, windows) <= CountSince(w.log, key, c.readAt - windows(key) as real)
  {
    var w := Run(steps, windows);
    var c := w.clients[client];
    RunIsConsistent(steps, windows);
    KeyCountIsBounded(w, c.keys[|c.counts|], c.readAt, windows(c.keys[|c.counts|]));
  }

  lemma KeyCountIsBounded(w: World, key: string, readAt: real, window: nat)
    requires KeyStands(w.store, w.log, key, w.now, window) && readAt <= w.now
    ensures CountSince(w.log, key, w.now - window as real) <= ZCount(w.store, key, readAt - window as real)
    ensures ZCount(w.store, key, readAt - window as real) <= CountSince(w.log, key, readAt - window as real)
  {
    CountFromMonotone(Scores(w.store, key), readAt - window as real, w.now - window as real);
    assert ZCount(w.store, key, w.now - window as real) == CountSince(w.log, key, w.now - window as real);
  }

  /** With no time between TIME and the pipeline, the count is the number of events in the window. */
  lemma AtomicCountIsExact(steps: seq<Step>, client: nat, windows: Windows)
    requires Enabled(Run(steps, windows), CountNext(client))
    requires Run(steps, windows).clients[client].readAt == Run(steps, windows).now
    ensures var w := Run(steps, windows);
            var c := w.clients[client];
            var key := c.keys[|c.counts|];
            CountReturned(w, client, windows) == CountSince(w.log, key, w.now - windows(key) as real)
  {
    CountsAreBounded(steps, client, windows);
  }

  function Occurrences(keys: seq<string>, key: string): nat {
    if keys == [] then 0 else Occurrences(keys[..|keys| - 1], key) + if keys[|keys| - 1] == key then 1 else 0
  }

  /** What a step adds to the live events of a key: a record its score, once for each time it names the key. */
  function Added(w: World, step: Step, key: string, since: real): nat
    requires Enabled(w, step)
  {
    if step.ExecuteRecord? && w.clients[step.client].readAt >= since
    then Occurrences(w.clients[step.client].keys, key) else 0
  }

  /**
   The live part of every stored set changes exactly as the step says: no ZREMRANGEBYSCORE, no expiry and no step
   of another operation takes away an event that is in the window at that moment; only a success clears its key.
   */
  lemma LiveEventsChangeExactly(steps: seq<Step>, step: Step, windows: Windows, key: string, since: real)
    requires Enabled(Run(steps, windows), step)
    requires since >= Next(Run(steps, windows), step, windows).now - windows(key) as real
    ensures var w := Run(steps, windows);
            ZCount(Next(w, step, windows).store, key, since)
            == if step == Delete(key) then 0 else ZCount(w.store, key, since) + Added(w, step, key, since)
  {
    var w := Run(steps, windows);
    var after := Next(w, step, windows);
    RunIsConsistent(steps, windows);
    StepIsConsistent(w, step, windows);
    assert KeyStands(w.store, w.log, key, w.now, windows(key));
    assert KeyStands(after.store, after.log, key, after.now, windows(key));
    match step
    case ExecuteRecord(client) =>
      LogKeysCount(w.log, w.clients[client].keys, w.clients[client].readAt, key, since);
    case Delete(cleared) => ClearCounts(w.log, cleared, key, since);
    case _ =>
  }

  lemma {:induction false} LogKeysCount(log: Log, keys: seq<string>, readAt: real, key: string, since: real)
    ensures CountSince(LogKeys(log, keys, readAt), key, since)
         == CountSince(log, key, since) + if readAt >= since then Occurrences(keys, key) else 0
  {
    if keys != [] {
      var n := |keys| - 1;
      LogKeysCount(log, keys[..n], readAt, key, since);
      CountSinceAppend(LogKeys(log, keys[..n], readAt), Event(keys[n], readAt), key, since);
    }
  }
}
