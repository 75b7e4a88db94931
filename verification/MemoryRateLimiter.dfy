/**
 The in-memory limiter: ordered maps of timestamp queues, trimmed in place and evicted from the head.
 A `BucketMap` is one of the ordered maps; `InMemoryLoginRateLimiter` owns the five.
 */
module MemoryRateLimiter {
  import opened Basics
  import opened RateLimitLog
  import opened RateLimitRuns

  type Buckets = map<string, seq<real>>

  function Bucket(buckets: Buckets, key: string): seq<real> {
    if key in buckets then buckets[key] else []
  }

  ghost predicate Sorted(times: seq<real>) {
    forall i, j :: 0 <= i < j < |times| ==> times[i] <= times[j]
  }

  ghost predicate Distinct(keys: seq<string>) {
    forall i, j :: 0 <= i < j < |keys| ==> keys[i] != keys[j]
  }

  /** Every queue is sorted, nonempty and not in the future. */
  ghost predicate QueuesOk(buckets: Buckets, clock: real) {
    forall key :: key in buckets ==> buckets[key] != [] && Sorted(buckets[key]) && LastOf(buckets[key]) <= clock
  }

  ghost function LastOf(times: seq<real>): real {
    if times == [] then 0.0 else times[|times| - 1]
  }

  /** The map order is the order of last events. */
  ghost predicate OrderedByLast(order: seq<string>, buckets: Buckets) {
    forall i, j :: 0 <= i < j < |order| ==> LastOf(Bucket(buckets, order[i])) <= LastOf(Bucket(buckets, order[j]))
  }

  ghost predicate SameKeys(order: seq<string>, buckets: Buckets) {
    forall key :: key in buckets <==> key in order
  }

  /** A queue answers every count at or after `from` as the log does. */
  ghost predicate Stands(log: Log, key: string, bucket: seq<real>, from: real) {
    forall since :: since >= from ==> CountSince(log, key, since) == CountFrom(bucket, since)
  }

  /** Two queues that agree on every count at or after `from`. */
  ghost predicate SameFrom(a: seq<real>, b: seq<real>, from: real) {
    forall since :: since >= from ==> CountFrom(a, since) == CountFrom(b, since)
  }

  function Without(order: seq<string>, key: string): seq<string> {
    if order == [] then []
    else if order[0] == key then order[1..]
    else [order[0]] + Without(order[1..], key)
  }

  /** `OrderedDict.pop` and the removal half of `move_to_end`. */
  lemma {:induction false} WithoutKeepsOrder(order: seq<string>, key: string, buckets: Buckets)
    requires Distinct(order) && OrderedByLast(order, buckets)
    ensures Distinct(Without(order, key)) && OrderedByLast(Without(order, key), buckets)
    ensures forall k :: k in Without(order, key) <==> k in order && k != key
    ensures |Without(order, key)| == |order| - if key in order then 1 else 0
  {
    if order != [] {
      var rest := order[1..];
      assert order == [order[0]] + rest;
      assert forall i :: 0 <= i < |rest| ==> rest[i] == order[i + 1];
      if order[0] != key {
        WithoutKeepsOrder(rest, key, buckets);
        var shorter := Without(rest, key);
        forall j | 0 <= j < |shorter|
          ensures order[0] != shorter[j]
          ensures LastOf(Bucket(buckets, order[0])) <= LastOf(Bucket(buckets, shorter[j]))
        {
          assert shorter[j] in shorter;
          var i :| 0 <= i < |rest| && rest[i] == shorter[j];
          assert order[i + 1] == shorter[j];
        }
      } else {
        forall k | k in rest ensures k != key {
          var i :| 0 <= i < |rest| && rest[i] == k;
          assert order[i + 1] == k;
        }
      }
    }
  }

  lemma OrderDependsOnLast(order: seq<string>, before: Buckets, after: Buckets)
    requires OrderedByLast(order, before)
    requires forall k :: k in order ==> LastOf(Bucket(after, k)) == LastOf(Bucket(before, k))
    ensures OrderedByLast(order, after)
  {
    forall i, j | 0 <= i < j < |order|
      ensures LastOf(Bucket(after, order[i])) <= LastOf(Bucket(after, order[j]))
    {
      assert order[i] in order && order[j] in order;
    }
  }

  /** Removes expired times from the head of one queue. */
  method Trim(bucket: seq<real>, now: real, window: nat) returns (kept: seq<real>)
    requires Sorted(bucket)
    ensures IsTrimmed(kept, bucket, now - window as real)
  {
    kept := bucket;
    while kept != [] && now - kept[0] > window as real
      invariant Sorted(kept)
      invariant SameFrom(kept, bucket, now - window as real)
      invariant kept != [] ==> LastOf(kept) == LastOf(bucket)
      decreases |kept|
    {
      forall since | since >= now - window as real
        ensures CountFrom(kept[1..], since) == CountFrom(kept, since)
      {
        CountFromTail(kept, since);
      }
      kept := kept[1..];
    }
    CountFromAll(kept, now - window as real);
  }

  /** What a bucket map holds at one moment, and the log it stands for at time `clock`. */
  datatype Snapshot = Snapshot(order: seq<string>, buckets: Buckets, log: Log, clock: real)

  ghost predicate Consistent(s: Snapshot, window: nat, cap: nat) {
    && Distinct(s.order) && SameKeys(s.order, s.buckets) && |s.order| <= cap
    && QueuesOk(s.buckets, s.clock) && OrderedByLast(s.order, s.buckets)
    && AllStand(s, window)
  }

  ghost predicate AllStand(s: Snapshot, window: nat) {
    forall key :: Stands(s.log, key, Bucket(s.buckets, key), s.clock - window as real)
  }

  ghost predicate AllLive(s: Snapshot, window: nat) {
    forall key :: key in s.buckets ==> LastOf(s.buckets[key]) >= s.clock - window as real
  }

  lemma LaterIsConsistent(s: Snapshot, now: real, window: nat, cap: nat)
    requires Consistent(s, window, cap) && now >= s.clock
    ensures Consistent(s.(clock := now), window, cap)
  {
    forall key ensures Stands(s.log, key, Bucket(s.buckets, key), now - window as real) {
      assert Stands(s.log, key, Bucket(s.buckets, key), s.clock - window as real);
    }
  }

  /** Trimming one queue changes no answer, no last event and hence no place in the order. */
  lemma TrimmedIsConsistent(s: Snapshot, key: string, kept: seq<real>, window: nat, cap: nat)
    requires Consistent(s, window, cap) && key in s.buckets
    requires kept != [] && Sorted(kept) && LastOf(kept) == LastOf(s.buckets[key])
    requires SameFrom(kept, s.buckets[key], s.clock - window as real)
    ensures Consistent(s.(buckets := s.buckets[key := kept]), window, cap)
  {
    var after := s.buckets[key := kept];
    OrderDependsOnLast(s.order, s.buckets, after);
    forall k ensures Stands(s.log, k, Bucket(after, k), s.clock - window as real) {
      assert Stands(s.log, k, Bucket(s.buckets, k), s.clock - window as real);
    }
  }

  ghost function Removed(s: Snapshot, key: string): Snapshot {
    s.(order := Without(s.order, key), buckets := s.buckets - {key})
  }

  /** Deleting a key whose queue holds nothing in the window changes no answer. */
  lemma RemovedIsConsistent(s: Snapshot, key: string, window: nat, cap: nat)
    requires Consistent(s, window, cap)
    requires SameFrom([], Bucket(s.buckets, key), s.clock - window as real)
    ensures Consistent(Removed(s, key), window, cap)
  {
    WithoutKeepsOrder(s.order, key, s.buckets);
    OrderDependsOnLast(Without(s.order, key), s.buckets, s.buckets - {key});
    forall k ensures Stands(s.log, k, Bucket(s.buckets - {key}, k), s.clock - window as real) {
      assert Stands(s.log, k, Bucket(s.buckets, k), s.clock - window as real);
    }
  }

  ghost predicate IsTrimmed(kept: seq<real>, bucket: seq<real>, from: real) {
    && Sorted(kept) && SameFrom(kept, bucket, from) && |kept| == CountFrom(bucket, from)
    && (kept != [] ==> LastOf(kept) == LastOf(bucket) && LastOf(kept) >= from)
  }

  /** The map after the queue of `key` was trimmed to `kept` and deleted when nothing was left. */
  ghost function AfterTrim(s: Snapshot, key: string, kept: seq<real>): Snapshot {
    if kept == [] then Removed(s, key) else s.(buckets := s.buckets[key := kept])
  }

  lemma AfterTrimIsConsistent(s: Snapshot, key: string, kept: seq<real>, window: nat, cap: nat)
    requires Consistent(s, window, cap) && key in s.buckets
    requires IsTrimmed(kept, s.buckets[key], s.clock - window as real)
    ensures Consistent(AfterTrim(s, key, kept), window, cap)
    ensures |kept| == CountSince(s.log, key, s.clock - window as real)
    ensures kept == [] ==> |Without(s.order, key)| < |s.order|
    ensures kept == Bucket(AfterTrim(s, key, kept).buckets, key)
    ensures AfterTrim(s, key, kept).buckets.Keys <= s.buckets.Keys
    ensures kept != [] && s.order != [] && s.order[0] == key ==> AllLive(AfterTrim(s, key, kept), window)
  {
    assert Stands(s.log, key, Bucket(s.buckets, key), s.clock - window as real);
    WithoutKeepsOrder(s.order, key, s.buckets);
    if kept == [] {
      RemovedIsConsistent(s, key, window, cap);
    } else {
      TrimmedIsConsistent(s, key, kept, window, cap);
      if s.order != [] && s.order[0] == key {
        HeadLiveMeansAllLive(AfterTrim(s, key, kept), window, cap);
      }
    }
  }

  lemma AbsentMeansNone(s: Snapshot, key: string, window: nat, cap: nat)
    requires Consistent(s, window, cap) && key !in s.buckets
    ensures CountSince(s.log, key, s.clock - window as real) == 0
  {
    assert Stands(s.log, key, Bucket(s.buckets, key), s.clock - window as real);
  }

  /** Forgetting a key in the map and in the log keeps them in step. */
  lemma PoppedIsConsistent(s: Snapshot, key: string, window: nat, cap: nat)
    requires Consistent(s, window, cap)
    ensures Consistent(Removed(s, key).(log := Clear(s.log, key)), window, cap)
  {
    WithoutKeepsOrder(s.order, key, s.buckets);
    OrderDependsOnLast(Without(s.order, key), s.buckets, s.buckets - {key});
    var from := s.clock - window as real;
    forall k ensures Stands(Clear(s.log, key), k, Bucket(s.buckets - {key}, k), from) {
      assert Stands(s.log, k, Bucket(s.buckets, k), from);
      forall since | since >= from
        ensures CountSince(Clear(s.log, key), k, since) == CountFrom(Bucket(s.buckets - {key}, k), since)
      {
        ClearCounts(s.log, key, k, since);
      }
    }
  }

  ghost function Appended(s: Snapshot, key: string): Snapshot {
    Snapshot(Without(s.order, key) + [key], s.buckets[key := Bucket(s.buckets, key) + [s.clock]],
             s.log + [Event(key, s.clock)], s.clock)
  }

  /** Appending the present time and moving the key to the end keeps the map in last-event order. */
  lemma AppendedIsConsistent(s: Snapshot, key: string, window: nat, cap: nat)
    requires Consistent(s, window, cap)
    requires |s.order| < cap || key in s.buckets
    ensures Consistent(Appended(s, key), window, cap)
  {
    var after := Appended(s, key);
    AppendedIsOrdered(s, key);
    forall k ensures Stands(after.log, k, Bucket(after.buckets, k), s.clock - window as real) {
      assert Stands(s.log, k, Bucket(s.buckets, k), s.clock - window as real);
      StandsAfterAppend(s.log, key, Bucket(s.buckets, key), s.clock, k, Bucket(s.buckets, k), s.clock - window as real);
    }
  }

  lemma AppendedIsOrdered(s: Snapshot, key: string)
    requires Distinct(s.order) && SameKeys(s.order, s.buckets)
    requires QueuesOk(s.buckets, s.clock) && OrderedByLast(s.order, s.buckets)
    ensures var after := Appended(s, key);
            && Distinct(after.order) && SameKeys(after.order, after.buckets)
            && QueuesOk(after.buckets, s.clock) && OrderedByLast(after.order, after.buckets)
            && |after.order| == |s.order| + if key in s.buckets then 0 else 1
  {
    var rest, after := Without(s.order, key), Appended(s, key);
    WithoutKeepsOrder(s.order, key, s.buckets);
    assert SameKeys(after.order, after.buckets);
    assert OrderedByLast(after.order, after.buckets) && Distinct(after.order) by {
      OrderDependsOnLast(rest, s.buckets, after.buckets);
      SnocIsOrdered(rest, key, after.buckets);
    }
    SnocIsSorted(Bucket(s.buckets, key), s.clock);
  }

  lemma SnocIsOrdered(rest: seq<string>, key: string, buckets: Buckets)
    requires Distinct(rest) && OrderedByLast(rest, buckets) && key !in rest
    requires forall k :: k in rest ==> LastOf(Bucket(buckets, k)) <= LastOf(Bucket(buckets, key))
    ensures Distinct(rest + [key]) && OrderedByLast(rest + [key], buckets)
  {
    assert forall i :: 0 <= i < |rest| ==> (rest + [key])[i] == rest[i] && rest[i] in rest;
  }

  lemma SnocIsSorted(times: seq<real>, t: real)
    requires Sorted(times) && (times == [] || LastOf(times) <= t)
    ensures Sorted(times + [t])
  {
  }

  lemma HeadLiveMeansAllLive(s: Snapshot, window: nat, cap: nat)
    requires Consistent(s, window, cap) && s.order != []
    requires LastOf(Bucket(s.buckets, s.order[0])) >= s.clock - window as real
    ensures AllLive(s, window)
  {
    forall key | key in s.buckets ensures LastOf(s.buckets[key]) >= s.clock - window as real {
      var i :| 0 <= i < |s.order| && s.order[i] == key;
    }
  }

  /** Live keys all have a queue; when every queue is live they are exactly the keys of the map. */
  lemma LiveKeysFit(s: Snapshot, window: nat, cap: nat)
    requires Consistent(s, window, cap)
    ensures |LiveKeys(s.log, s.clock - window as real)| <= |s.order|
    ensures AllLive(s, window) ==> |LiveKeys(s.log, s.clock - window as real)| == |s.order|
  {
    var since := s.clock - window as real;
    var live := LiveKeys(s.log, since);
    var keys := set key | key in s.order;
    DistinctCardinality(s.order);
    forall key ensures key in live <==> CountFrom(Bucket(s.buckets, key), since) > 0 {
      LiveIffCounted(s.log, key, since);
      assert Stands(s.log, key, Bucket(s.buckets, key), since);
    }
    assert live <= keys;
    SubsetSize(live, keys);
    if AllLive(s, window) {
      assert live == keys;
    }
  }

  /** One ordered map of queues, with the log of the events it stands for as ghost state. */
  class BucketMap {
    const window: nat
    const cap: nat
    var order: seq<string>
    var buckets: Buckets
    var capWarned: bool
    ghost var log: Log
    ghost var clock: real

    ghost function Now(): Snapshot
      reads this
    {
      Snapshot(order, buckets, log, clock)
    }

    ghost predicate Valid()
      reads this
    {
      Consistent(Now(), window, cap)
    }

    constructor (window: nat, cap: nat)
      ensures Valid() && log == [] && this.window == window && this.cap == cap && !capWarned && clock == 0.0
    {
      this.window, this.cap := window, cap;
      order, buckets, capWarned := [], map[], false;
      log, clock := [], 0.0;
    }

    /** Looks a key up: trims its queue, drops the key when nothing is left, and returns what is live. */
    method GetExistingBucket(key: string, now: real) returns (bucket: seq<real>)
      requires Valid() && now >= clock
      modifies this`order, this`buckets, this`clock
      ensures Valid() && clock == now
      ensures |bucket| == CountSince(log, key, now - window as real)
      ensures bucket == Bucket(buckets, key)
    {
      LaterIsConsistent(Now(), now, window, cap);
      clock := now;
      if key in buckets {
        bucket := LiveBucket(key, now);
      } else {
        bucket := [];
        AbsentMeansNone(Now(), key, window, cap);
      }
    }

    /** What is live of a present key's queue, which is all that stays. */
    method LiveBucket(key: string, now: real) returns (bucket: seq<real>)
      requires Valid() && clock == now && key in buckets
      modifies this`order, this`buckets
      ensures Valid() && bucket == Bucket(buckets, key)
      ensures |bucket| == CountSince(log, key, now - window as real)
    {
      ghost var before := Now();
      bucket := TrimKey(key, now);
      AfterTrimIsConsistent(before, key, bucket, window, cap);
    }

    /** Trims the queue of a present key in place and deletes the key when nothing is left. */
    method TrimKey(key: string, now: real) returns (bucket: seq<real>)
      requires Valid() && clock == now && key in buckets
      modifies this`order, this`buckets
      ensures Now() == AfterTrim(old(Now()), key, bucket)
      ensures IsTrimmed(bucket, old(buckets[key]), clock - window as real)
    {
      bucket := Trim(buckets[key], now, window);
      if bucket == [] {
        order, buckets := Without(order, key), buckets - {key};
      } else {
        buckets := buckets[key := bucket];
      }
    }

    /** `len(_get_existing_bucket(...))`: how many events of the key are live. */
    method CountActive(key: string, now: real) returns (count: nat)
      requires Valid() && now >= clock
      modifies this`order, this`buckets, this`clock
      ensures Valid() && clock == now
      ensures count == CountSince(log, key, now - window as real)
    {
      var bucket := GetExistingBucket(key, now);
      count := |bucket|;
    }

    /** Evicts expired heads while the map is full, stopping at the first live head. */
    method EvictExpiredBuckets(now: real)
      requires Valid() && now == clock
      modifies this`order, this`buckets
      ensures Valid()
      ensures |order| < cap || AllLive(Now(), window)
      ensures buckets.Keys <= old(buckets.Keys)
    {
      while order != [] && |order| >= cap
        invariant Valid()
        invariant buckets.Keys <= old(buckets.Keys)
        decreases |order|
      {
        var evicted := EvictHead(now);
        if !evicted {
          return;
        }
      }
    }

    /** One round of the eviction loop: trims the head and deletes it when nothing is left. */
    method EvictHead(now: real) returns (evicted: bool)
      requires Valid() && now == clock && order != []
      modifies this`order, this`buckets
      ensures Valid()
      ensures evicted ==> |order| < old(|order|)
      ensures !evicted ==> AllLive(Now(), window)
      ensures buckets.Keys <= old(buckets.Keys)
    {
      var key := order[0];
      assert key in order;
      ghost var before := Now();
      var bucket := TrimKey(key, now);
      AfterTrimIsConsistent(before, key, bucket, window, cap);
      evicted := bucket == [];
    }

    /** The live queue of `key`, or room for a new one; `ok` is false when the map is full of live keys. */
    method GetOrCreateBucket(key: string, now: real) returns (bucket: seq<real>, ok: bool)
      requires Valid() && now >= clock
      modifies this`order, this`buckets, this`clock, this`capWarned
      ensures Valid() && clock == now && bucket == Bucket(buckets, key)
      ensures ok <==> !Dropped(log, key, now, window, cap)
      ensures ok ==> |order| < cap || key in buckets
      ensures capWarned <==> old(capWarned) || !ok
    {
      bucket := GetExistingBucket(key, now);
      LiveIffCounted(log, key, now - window as real);
      if bucket != [] {
        return bucket, true;
      }
      if |order| >= cap {
        EvictExpiredBuckets(now);
      }
      LiveKeysFit(Now(), window, cap);
      ok := |order| < cap;
      capWarned := capWarned || !ok;
    }

    /** Appends `now` to the queue of `key`; every caller of the get-or-create step does so at once. */
    method Record(key: string, now: real) returns (recorded: bool)
      requires Valid() && now >= clock
      modifies this
      ensures Valid() && clock == now
      ensures log == RecordCapped(old(log), key, now, window, cap)
      ensures recorded <==> !Dropped(old(log), key, now, window, cap)
      ensures capWarned <==> old(capWarned) || !recorded
    {
      var bucket;
      bucket, recorded := GetOrCreateBucket(key, now);
      if recorded {
        AppendedIsConsistent(Now(), key, window, cap);
        order, buckets := Without(order, key) + [key], buckets[key := bucket + [now]];
        log := log + [Event(key, now)];
      }
    }

    /** `record_success`: forgets the key. */
    method Pop(key: string)
      requires Valid()
      modifies this`order, this`buckets, this`log
      ensures Valid() && log == Clear(old(log), key)
    {
      PoppedIsConsistent(Now(), key, window, cap);
      order, buckets := Without(order, key), buckets - {key};
      log := Clear(log, key);
    }
  }

  /** The limiter itself: each verdict is the one read off the five event logs. */
  class InMemoryLoginRateLimiter {
    const window: nat
    const limits: Limits
    const emailIp: BucketMap
    const byIp: BucketMap
    const byEmail: BucketMap
    const registrationIp: BucketMap
    const oidcIp: BucketMap

    ghost predicate Valid(now: real)
      reads this, emailIp, byIp, byEmail, registrationIp, oidcIp
    {
      && emailIp != byIp && emailIp != byEmail && emailIp != registrationIp && emailIp != oidcIp
      && byIp != byEmail && byIp != registrationIp && byIp != oidcIp
      && byEmail != registrationIp && byEmail != oidcIp && registrationIp != oidcIp
      && emailIp.Valid() && byIp.Valid() && byEmail.Valid() && registrationIp.Valid() && oidcIp.Valid()
      && emailIp.window == byIp.window == byEmail.window == oidcIp.window == window
      && emailIp.clock <= now && byIp.clock <= now && byEmail.clock <= now
      && registrationIp.clock <= now && oidcIp.clock <= now
    }

    constructor (window: nat, registrationWindow: nat, limits: Limits, cap: nat)
      ensures Valid(0.0)
      ensures emailIp.log == byIp.log == byEmail.log == registrationIp.log == oidcIp.log == []
      ensures this.window == window && this.limits == limits && registrationIp.window == registrationWindow
      ensures emailIp.cap == byIp.cap == byEmail.cap == registrationIp.cap == oidcIp.cap == cap
      ensures fresh({emailIp, byIp, byEmail, registrationIp, oidcIp})
    {
      this.window, this.limits := window, limits;
      emailIp := new BucketMap(window, cap);
      byIp := new BucketMap(window, cap);
      byEmail := new BucketMap(window, cap);
      registrationIp := new BucketMap(registrationWindow, cap);
      oidcIp := new BucketMap(window, cap);
    }

    method IsAllowed(ip: string, email: string, now: real) returns (allowed: bool)
      requires Valid(now)
      modifies emailIp, byIp, byEmail
      ensures Valid(now)
      ensures emailIp.log == old(emailIp.log) && byIp.log == old(byIp.log) && byEmail.log == old(byEmail.log)
      ensures allowed <==>
              var since := now - window as real;
              && CountSince(emailIp.log, EmailIpKey(ip, email), since) < limits.perEmailIp
              && CountSince(byIp.log, ip, since) < limits.perIp
              && CountSince(byEmail.log, email, since) < limits.perEmail
    {
      var pair, perIp := FailureCounts(ip, email, now);
      var perEmail := byEmail.CountActive(email, now);
      allowed := pair < limits.perEmailIp && perIp < limits.perIp && perEmail < limits.perEmail;
    }

    /** The two lookups shared by the login check and the account-deletion check. */
    method FailureCounts(ip: string, email: string, now: real) returns (pair: nat, perIp: nat)
      requires Valid(now)
      modifies emailIp, byIp
      ensures Valid(now)
      ensures emailIp.log == old(emailIp.log) && byIp.log == old(byIp.log)
      ensures pair == CountSince(emailIp.log, EmailIpKey(ip, email), now - window as real)
      ensures perIp == CountSince(byIp.log, ip, now - window as real)
    {
      pair := emailIp.CountActive(EmailIpKey(ip, email), now);
      perIp := byIp.CountActive(ip, now);
    }

    method IsAccountDeletionReauthAllowed(ip: string, email: string, now: real) returns (allowed: bool)
      requires Valid(now)
      modifies emailIp, byIp
      ensures Valid(now)
      ensures emailIp.log == old(emailIp.log) && byIp.log == old(byIp.log)
      ensures allowed <==>
              var since := now - window as real;
              && CountSince(emailIp.log, EmailIpKey(ip, email), since) < limits.perEmailIp
              && CountSince(byIp.log, ip, since) < limits.perIp
    {
      var pair, perIp := FailureCounts(ip, email, now);
      allowed := pair < limits.perEmailIp && perIp < limits.perIp;
    }

    method RecordFailure(ip: string, email: string, includeEmailBucket: bool, now: real)
      requires Valid(now)
      modifies emailIp, byIp, byEmail
      ensures Valid(now)
      ensures emailIp.log == RecordCapped(old(emailIp.log), EmailIpKey(ip, email), now, window, emailIp.cap)
      ensures byIp.log == RecordCapped(old(byIp.log), ip, now, window, byIp.cap)
      ensures byEmail.log == if includeEmailBucket
                             then RecordCapped(old(byEmail.log), email, now, window, byEmail.cap)
                             else old(byEmail.log)
    {
      var _ := emailIp.Record(EmailIpKey(ip, email), now);
      var _ := byIp.Record(ip, now);
      if includeEmailBucket {
        var _ := byEmail.Record(email, now);
      }
    }

    /** A success clears the e-mail and address pair only; the other two logs stay. */
    method RecordSuccess(ip: string, email: string, ghost now: real)
      requires Valid(now)
      modifies emailIp
      ensures Valid(now) && emailIp.log == Clear(old(emailIp.log), EmailIpKey(ip, email))
    {
      emailIp.Pop(EmailIpKey(ip, email));
    }

    method IsRegistrationAllowed(ip: string, now: real) returns (allowed: bool)
      requires Valid(now)
      modifies registrationIp
      ensures Valid(now) && registrationIp.log == old(registrationIp.log)
      ensures allowed <==>
              CountSince(registrationIp.log, ip, now - registrationIp.window as real) < limits.registrationsPerIp
    {
      var count := registrationIp.CountActive(ip, now);
      allowed := count < limits.registrationsPerIp;
    }

    method RecordRegistration(ip: string, now: real)
      requires Valid(now)
      modifies registrationIp
      ensures Valid(now)
      ensures registrationIp.log
           == RecordCapped(old(registrationIp.log), ip, now, registrationIp.window, registrationIp.cap)
    {
      var _ := registrationIp.Record(ip, now);
    }

    method IsOidcAuthorizationAllowed(ip: string, now: real) returns (allowed: bool)
      requires Valid(now)
      modifies oidcIp
      ensures Valid(now) && oidcIp.log == old(oidcIp.log)
      ensures allowed <==> CountSince(oidcIp.log, ip, now - window as real) < limits.oidcStartsPerIp
    {
      var count := oidcIp.CountActive(ip, now);
      allowed := count < limits.oidcStartsPerIp;
    }

    method RecordOidcAuthorization(ip: string, now: real)
      requires Valid(now)
      modifies oidcIp
      ensures Valid(now)
      ensures oidcIp.log == RecordCapped(old(oidcIp.log), ip, now, window, oidcIp.cap)
    {
      var _ := oidcIp.Record(ip, now);
    }
  }

  /** Appending the same event to a queue and to the log keeps them in step. */
  lemma StandsAfterAppend(log: Log, key: string, appended: seq<real>, now: real, k: string, bucket: seq<real>, from: real)
    requires Stands(log, k, bucket, from)
    requires k == key ==> bucket == appended
    ensures Stands(log + [Event(key, now)], k, if k == key then appended + [now] else bucket, from)
  {
    forall since | since >= from
      ensures CountSince(log + [Event(key, now)], k, since)
           == CountFrom(if k == key then appended + [now] else bucket, since)
    {
      CountSinceAppend(log, Event(key, now), k, since);
      CountFromAppend(appended, now, since);
    }
  }

  lemma {:induction false} DistinctCardinality(keys: seq<string>)
    requires Distinct(keys)
    ensures |set key | key in keys| == |keys|
  {
    if keys != [] {
      var n := |keys| - 1;
      DistinctCardinality(keys[..n]);
      assert (set key | key in keys) == (set key | key in keys[..n]) + {keys[n]};
    }
  }
}
