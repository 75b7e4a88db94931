/**
 The meaning of one rate-limit scope: the log of its uncleared events.  Both limiters keep less than
 this log (trimmed deques, trimmed sorted sets) and are proved to answer as if they kept all of it.
 */
module RateLimitLog {

  datatype Event = Event(key: string, at: real)

  type Log = seq<Event>

  /** How many of the given times are at or after `since`. */
  function CountFrom(times: seq<real>, since: real): nat {
    if times == [] then 0
    else CountFrom(times[..|times| - 1], since) + if times[|times| - 1] >= since then 1 else 0
  }

  /** How many events of `key` in the log are at or after `since`. */
  function CountSince(log: Log, key: string, since: real): nat {
    if log == [] then 0
    else
      var last := log[|log| - 1];
      CountSince(log[..|log| - 1], key, since) + if last.key == key && last.at >= since then 1 else 0
  }

  /** The keys with at least one event at or after `since`. */
  function LiveKeys(log: Log, since: real): set<string> {
    set e | e in log && e.at >= since :: e.key
  }

  /** `record_success`: every event of one key is forgotten. */
  function Clear(log: Log, key: string): Log {
    if log == [] then []
    else
      var last := log[|log| - 1];
      Clear(log[..|log| - 1], key) + if last.key == key then [] else [last]
  }

  /** Recording with at most `cap` live keys: a new key is dropped when `cap` keys are live. */
  function RecordCapped(log: Log, key: string, now: real, window: nat, cap: nat): Log {
    if Dropped(log, key, now, window, cap) then log else log + [Event(key, now)]
  }

  predicate Dropped(log: Log, key: string, now: real, window: nat, cap: nat) {
    var live := LiveKeys(log, now - window as real);
    key !in live && |live| >= cap
  }

  lemma CountFromAppend(times: seq<real>, t: real, since: real)
    ensures CountFrom(times + [t], since) == CountFrom(times, since) + if t >= since then 1 else 0
  {
    assert (times + [t])[..|times|] == times;
  }

  lemma CountSinceAppend(log: Log, e: Event, key: string, since: real)
    ensures CountSince(log + [e], key, since)
         == CountSince(log, key, since) + if e.key == key && e.at >= since then 1 else 0
  {
    assert (log + [e])[..|log|] == log;
  }

  /** Removing a head that is before `since` does not change the count. */
  lemma {:induction false} CountFromTail(times: seq<real>, since: real)
    requires times != []
    ensures CountFrom(times, since) == CountFrom(times[1..], since) + if times[0] >= since then 1 else 0
  {
    if |times| > 1 {
      var init := times[..|times| - 1];
      CountFromTail(init, since);
      assert init[1..] == times[1..][..|times| - 2];
    }
  }

  lemma {:induction false} CountFromAll(times: seq<real>, since: real)
    requires forall i :: 0 <= i < |times| ==> times[i] >= since
    ensures CountFrom(times, since) == |times|
  {
    if times != [] {
      CountFromAll(times[..|times| - 1], since);
    }
  }

  lemma {:induction false} CountFromMonotone(times: seq<real>, lo: real, hi: real)
    requires lo <= hi
    ensures CountFrom(times, hi) <= CountFrom(times, lo)
  {
    if times != [] {
      CountFromMonotone(times[..|times| - 1], lo, hi);
    }
  }

  lemma {:induction false} CountSinceMonotone(log: Log, key: string, lo: real, hi: real)
    requires lo <= hi
    ensures CountSince(log, key, hi) <= CountSince(log, key, lo)
  {
    if log != [] {
      CountSinceMonotone(log[..|log| - 1], key, lo, hi);
    }
  }

  /** A key is live exactly when its count is positive. */
  lemma {:induction false} LiveIffCounted(log: Log, key: string, since: real)
    ensures key in LiveKeys(log, since) <==> CountSince(log, key, since) > 0
  {
    if log != [] {
      var n := |log| - 1;
      LiveIffCounted(log[..n], key, since);
      assert log == log[..n] + [log[n]];
      if key in LiveKeys(log, since) {
        var e :| e in log && e.at >= since && e.key == key;
        assert e in log[..n] || e == log[n];
      }
    }
  }

  function CountedKeys(log: Log, since: real): set<string> {
    set e | e in log && CountSince(log, e.key, since) > 0 :: e.key
  }

  /** A record is dropped exactly when its key has no event in the window and the cap is met by keys that have one. */
  lemma DroppedExactly(log: Log, key: string, now: real, window: nat, cap: nat)
    ensures var since := now - window as real;
            Dropped(log, key, now, window, cap) <==> CountSince(log, key, since) == 0 && |CountedKeys(log, since)| >= cap
  {
    var since := now - window as real;
    LiveIffCounted(log, key, since);
    forall k ensures k in LiveKeys(log, since) <==> k in CountedKeys(log, since) {
      LiveIffCounted(log, k, since);
    }
    assert LiveKeys(log, since) == CountedKeys(log, since);
  }

  /** Clearing forgets exactly the events of that key. */
  lemma {:induction false} ClearCounts(log: Log, cleared: string, key: string, since: real)
    ensures CountSince(Clear(log, cleared), key, since)
         == if key == cleared then 0 else CountSince(log, key, since)
  {
    if log != [] {
      var n := |log| - 1;
      ClearCounts(log[..n], cleared, key, since);
      if log[n].key != cleared {
        CountSinceAppend(Clear(log[..n], cleared), log[n], key, since);
      } else {
        assert Clear(log[..n], cleared) + [] == Clear(log[..n], cleared);
      }
    }
  }
}
