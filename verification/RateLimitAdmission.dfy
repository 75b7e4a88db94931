/**
 How many OIDC starts one address can make.  A start is checked, then builds the provider URL, then is recorded;
 `k` bounds the starts that are between the two at any time.  The runs here are runs of the limiters themselves:
 a start goes on because of the count its own limiter told it, and is recorded at a time its limiter reads later.
 */
module RateLimitAdmission {
  import opened Basics
  import opened RateLimitLog
  import M = MemoryRateLimiter
  import R = RedisSlidingWindow

  datatype Limits = Limits(max: nat, k: nat)

  /** How many events of `key` lie in the closed interval. */
  function CountBetween(log: Log, key: string, from: real, to: real): nat {
    if log == [] then 0
    else
      var last := log[|log| - 1];
      CountBetween(log[..|log| - 1], key, from, to) + if last.key == key && from <= last.at <= to then 1 else 0
  }

  /** The events in the closed window that begins at `from`. */
  function StartsFrom(log: Log, key: string, from: real, window: nat): nat {
    CountBetween(log, key, from, from + window as real)
  }

  lemma CountBetweenAppend(log: Log, e: Event, key: string, from: real, to: real)
    ensures CountBetween(log + [e], key, from, to)
         == CountBetween(log, key, from, to) + if e.key == key && from <= e.at <= to then 1 else 0
  {
    assert (log + [e])[..|log|] == log;
  }

  lemma {:induction false} CountBetweenBelowSince(log: Log, key: string, from: real, to: real, since: real)
    requires since <= from
    ensures CountBetween(log, key, from, to) <= CountSince(log, key, since)
  {
    if log != [] {
      CountBetweenBelowSince(log[..|log| - 1], key, from, to, since);
    }
  }

  /** A check lets a start go on; beyond the k that can be under way at once there is none to go on. */
  predicate GoesOn(told: nat, admitted: map<nat, real>, l: Limits) {
    told < l.max && |admitted| < l.k
  }

  // ----- room for starts -----

  /** The admitted requests, with the time of their check, that were checked by then. */
  function CheckedBy(admitted: map<nat, real>, until: real): set<nat> {
    set request | request in admitted && admitted[request] <= until
  }

  /** In every window: the recorded starts and the admitted ones that can still be recorded in it. */
  ghost predicate Room(log: Log, key: string, admitted: map<nat, real>, l: Limits, window: nat) {
    forall from :: RoomAt(log, key, admitted, l, window, from)
  }

  ghost predicate RoomAt(log: Log, key: string, admitted: map<nat, real>, l: Limits, window: nat, from: real) {
    StartsFrom(log, key, from, window) + |CheckedBy(admitted, from + window as real)| <= l.max + l.k - 1
  }

  lemma CheckedAreAdmitted(admitted: map<nat, real>, until: real)
    ensures |CheckedBy(admitted, until)| <= |admitted|
  {
    SubsetSize(CheckedBy(admitted, until), admitted.Keys);
    assert |admitted.Keys| == |admitted|;
  }

  lemma OneMoreChecked(admitted: map<nat, real>, request: nat, at: real, until: real)
    requires request !in admitted
    ensures |CheckedBy(admitted[request := at], until)| == |CheckedBy(admitted, until)| + if at <= until then 1 else 0
  {
    var before, after := CheckedBy(admitted, until), CheckedBy(admitted[request := at], until);
    assert after == before + if at <= until then {request} else {};
  }

  /** A check that was told less than the limit leaves room for all that are admitted. */
  lemma AdmittingKeepsRoom(log: Log, key: string, admitted: map<nat, real>, l: Limits, window: nat, request: nat, at: real)
    requires Room(log, key, admitted, l, window) && request !in admitted && |admitted| < l.k
    requires CountSince(log, key, at - window as real) < l.max
    ensures Room(log, key, admitted[request := at], l, window)
  {
    var more := admitted[request := at];
    forall from ensures RoomAt(log, key, more, l, window, from) {
      assert RoomAt(log, key, admitted, l, window, from);
      var to := from + window as real;
      OneMoreChecked(admitted, request, at, to);
      if at <= to {
        CountBetweenBelowSince(log, key, from, to, at - window as real);
        CheckedAreAdmitted(admitted, to);
      }
    }
  }

  /** A start that is recorded at a time read after its check was already counted in every window it falls in. */
  lemma RecordingKeepsRoom(log: Log, key: string, admitted: map<nat, real>, l: Limits, window: nat, request: nat, at: real)
    requires Room(log, key, admitted, l, window) && request in admitted && admitted[request] <= at
    ensures Room(log + [Event(key, at)], key, admitted - {request}, l, window)
  {
    forall from ensures RoomAt(log + [Event(key, at)], key, admitted - {request}, l, window, from) {
      assert RoomAt(log, key, admitted, l, window, from);
      var to := from + window as real;
      CountBetweenAppend(log, Event(key, at), key, from, to);
      assert CheckedBy(admitted - {request}, to) == CheckedBy(admitted, to) - {request};
    }
  }

  lemma LeavingKeepsRoom(log: Log, key: string, admitted: map<nat, real>, l: Limits, window: nat, request: nat)
    requires Room(log, key, admitted, l, window)
    ensures Room(log, key, admitted - {request}, l, window)
  {
    forall from ensures RoomAt(log, key, admitted - {request}, l, window, from) {
      assert RoomAt(log, key, admitted, l, window, from);
      var to := from + window as real;
      assert CheckedBy(admitted - {request}, to) == CheckedBy(admitted, to) - {request};
    }
  }

  /** The events of one key decide. */
  ghost predicate SameEvents(log: Log, after: Log, key: string) {
    forall from, to :: CountBetween(after, key, from, to) == CountBetween(log, key, from, to)
  }

  lemma OthersKeepRoom(log: Log, after: Log, key: string, admitted: map<nat, real>, l: Limits, window: nat)
    requires Room(log, key, admitted, l, window) && SameEvents(log, after, key)
    ensures Room(after, key, admitted, l, window)
  {
    forall from ensures RoomAt(after, key, admitted, l, window, from) {
      assert RoomAt(log, key, admitted, l, window, from);
    }
  }

  lemma NothingHasRoom(key: string, l: Limits, window: nat)
    requires l.max + l.k >= 1
    ensures Room([], key, map[], l, window)
  {
    forall from ensures RoomAt([], key, map[], l, window, from) {
      assert CheckedBy(map[], from + window as real) == {};
    }
  }

  // ----- on the Redis limiter -----

  /** `admitted` is history: the clients whose check was told less than the limit, with the time of its ZCOUNT. */
  datatype World = World(redis: R.World, admitted: map<nat, real>)

  /** The two operations of a start, step by step, among any steps of other operations on other keys. */
  datatype Step =
    | Ask(client: nat)
    | Answer(client: nat)
    | ReadTime(client: nat)
    | Execute(client: nat)
    | GiveUp(client: nat)
    | Other(step: R.Step)

  const START := World(R.Start, map[])

  predicate Asked(w: World, client: nat, key: string) {
    client in w.redis.clients && w.redis.clients[client].Checking? && w.redis.clients[client].keys == [key]
  }

  /** A step of another operation: not on this key, and not of a client that is between check and record. */
  predicate Elsewhere(w: World, step: R.Step, key: string) {
    match step
    case Advance(_) => true
    case Expire(_) => true
    case Delete(cleared) => cleared != key
    case ReadTimeForCheck(client, keys) => client !in w.admitted && key !in keys
    case ReadTimeForRecord(client, keys) => client !in w.admitted && key !in keys
    case CountNext(client) => client !in w.admitted && !Asked(w, client, key)
    case ExecuteRecord(client) => client !in w.admitted
    case CutOff(client) => client !in w.admitted
  }

  predicate Enabled(w: World, step: Step, key: string) {
    match step
    case Ask(client) => client !in w.admitted && R.Enabled(w.redis, R.ReadTimeForCheck(client, [key]))
    case Answer(client) => client !in w.admitted && Asked(w, client, key) && R.Enabled(w.redis, R.CountNext(client))
    case ReadTime(client) => client in w.admitted && R.Enabled(w.redis, R.ReadTimeForRecord(client, [key]))
    case Execute(client) => client in w.admitted && R.Enabled(w.redis, R.ExecuteRecord(client))
    case GiveUp(client) => client in w.admitted
    case Other(other) => Elsewhere(w, other, key) && R.Enabled(w.redis, other)
  }

  function Next(w: World, step: Step, key: string, l: Limits, windows: R.Windows): World
    requires Enabled(w, step, key)
  {
    match step
    case Ask(client) => w.(redis := R.Next(w.redis, R.ReadTimeForCheck(client, [key]), windows))
    case Answer(client) =>
      var told := R.CountReturned(w.redis, client, windows);
      var done := R.Next(R.Next(w.redis, R.CountNext(client), windows), R.CutOff(client), windows);
      World(done, if GoesOn(told, w.admitted, l) then w.admitted[client := w.redis.now] else w.admitted)
    case ReadTime(client) => w.(redis := R.Next(w.redis, R.ReadTimeForRecord(client, [key]), windows))
    case Execute(client) => World(R.Next(w.redis, R.ExecuteRecord(client), windows), w.admitted - {client})
    case GiveUp(client) => World(R.Do(w.redis, R.CutOff(client), windows), w.admitted - {client})
    case Other(other) => w.(redis := R.Next(w.redis, other, windows))
  }

  /** A step that is not enabled when its turn comes does not happen. */
  function Do(w: World, step: Step, key: string, l: Limits, windows: R.Windows): World {
    if Enabled(w, step, key) then Next(w, step, key, l, windows) else w
  }

  function Run(steps: seq<Step>, key: string, l: Limits, windows: R.Windows): World {
    if steps == [] then START else Do(Run(steps[..|steps| - 1], key, l, windows), steps[|steps| - 1], key, l, windows)
  }

  /** Every record of the key that is under way belongs to an admitted client, with a TIME read after its check. */
  ghost predicate RecordsAdmitted(w: World, key: string) {
    && (forall client :: client in w.admitted ==> w.admitted[client] <= w.redis.now)
    && (forall client :: client in w.admitted && client in w.redis.clients && w.redis.clients[client].Recording? ==>
          w.redis.clients[client].keys == [key] && w.admitted[client] <= w.redis.clients[client].readAt)
    && (forall client :: client !in w.admitted && client in w.redis.clients && w.redis.clients[client].Recording? ==>
          key !in w.redis.clients[client].keys)
  }

  ghost predicate HasRoom(w: World, key: string, l: Limits, windows: R.Windows) {
    && R.Consistent(w.redis, windows)
    && RecordsAdmitted(w, key)
    && Room(w.redis.log, key, w.admitted, l, windows(key))
  }

  lemma {:induction false} OtherKeysLeaveEvents(log: Log, keys: seq<string>, readAt: real, key: string)
    requires key !in keys
    ensures SameEvents(log, R.LogKeys(log, keys, readAt), key)
  {
    if keys != [] {
      var n := |keys| - 1;
      OtherKeysLeaveEvents(log, keys[..n], readAt, key);
      forall from, to
        ensures CountBetween(R.LogKeys(log, keys, readAt), key, from, to) == CountBetween(log, key, from, to)
      {
        CountBetweenAppend(R.LogKeys(log, keys[..n], readAt), Event(keys[n], readAt), key, from, to);
      }
    }
  }

  lemma {:induction false} OtherClearLeavesEvents(log: Log, cleared: string, key: string, from: real, to: real)
    requires cleared != key
    ensures CountBetween(Clear(log, cleared), key, from, to) == CountBetween(log, key, from, to)
  {
    if log != [] {
      var n := |log| - 1;
      OtherClearLeavesEvents(log[..n], cleared, key, from, to);
      if log[n].key != cleared {
        CountBetweenAppend(Clear(log[..n], cleared), log[n], key, from, to);
      } else {
        assert Clear(log[..n], cleared) + [] == Clear(log[..n], cleared);
      }
    }
  }

  /** The limiter tells a check at least the events in the window when its ZCOUNT runs. */
  lemma AnswerTellsEnough(w: World, client: nat, key: string, l: Limits, windows: R.Windows)
    requires R.Consistent(w.redis, windows) && Enabled(w, Answer(client), key)
    ensures CountSince(w.redis.log, key, w.redis.now - windows(key) as real) <= R.CountReturned(w.redis, client, windows)
  {
    var c := w.redis.clients[client];
    assert c.keys[|c.counts|] == key;
    R.KeyCountIsBounded(w.redis, key, c.readAt, windows(key));
  }

  lemma AnswerIsConsistent(w: World, client: nat, key: string, l: Limits, windows: R.Windows)
    requires R.Consistent(w.redis, windows) && Enabled(w, Answer(client), key)
    ensures R.Consistent(Next(w, Answer(client), key, l, windows).redis, windows)
  {
    R.StepIsConsistent(w.redis, R.CountNext(client), windows);
    R.StepIsConsistent(R.Next(w.redis, R.CountNext(client), windows), R.CutOff(client), windows);
  }

  lemma AnswerKeepsRecords(w: World, client: nat, key: string, l: Limits, windows: R.Windows)
    requires RecordsAdmitted(w, key) && Enabled(w, Answer(client), key)
    ensures RecordsAdmitted(Next(w, Answer(client), key, l, windows), key)
  {
  }

  lemma AnswerLeavesRoom(w: World, client: nat, key: string, l: Limits, windows: R.Windows)
    requires Room(w.redis.log, key, w.admitted, l, windows(key)) && Enabled(w, Answer(client), key)
    requires CountSince(w.redis.log, key, w.redis.now - windows(key) as real) <= R.CountReturned(w.redis, client, windows)
    ensures var after := Next(w, Answer(client), key, l, windows);
            Room(after.redis.log, key, after.admitted, l, windows(key))
  {
    var after := Next(w, Answer(client), key, l, windows);
    assert after.redis.log == w.redis.log;
    if GoesOn(R.CountReturned(w.redis, client, windows), w.admitted, l) {
      AdmittingKeepsRoom(w.redis.log, key, w.admitted, l, windows(key), client, w.redis.now);
    }
  }

  lemma AnswerKeepsRoom(w: World, client: nat, key: string, l: Limits, windows: R.Windows)
    requires HasRoom(w, key, l, windows) && Enabled(w, Answer(client), key)
    ensures HasRoom(Next(w, Answer(client), key, l, windows), key, l, windows)
  {
    AnswerIsConsistent(w, client, key, l, windows);
    AnswerKeepsRecords(w, client, key, l, windows);
    AnswerTellsEnough(w, client, key, l, windows);
    AnswerLeavesRoom(w, client, key, l, windows);
  }

  lemma ExecuteKeepsRoom(w: World, client: nat, key: string, l: Limits, windows: R.Windows)
    requires HasRoom(w, key, l, windows) && Enabled(w, Execute(client), key)
    ensures HasRoom(Next(w, Execute(client), key, l, windows), key, l, windows)
  {
    R.StepIsConsistent(w.redis, R.ExecuteRecord(client), windows);
    var c := w.redis.clients[client];
    assert [key][..0] == [];
    assert R.LogKeys(w.redis.log, [key], c.readAt) == w.redis.log + [Event(key, c.readAt)];
    RecordingKeepsRoom(w.redis.log, key, w.admitted, l, windows(key), client, c.readAt);
  }

  lemma OtherKeepsRoom(w: World, step: R.Step, key: string, l: Limits, windows: R.Windows)
    requires HasRoom(w, key, l, windows) && Enabled(w, Other(step), key)
    ensures HasRoom(Next(w, Other(step), key, l, windows), key, l, windows)
  {
    R.StepIsConsistent(w.redis, step, windows);
    var after := R.Next(w.redis, step, windows);
    assert SameEvents(w.redis.log, after.log, key) by {
      match step
      case ExecuteRecord(client) =>
        OtherKeysLeaveEvents(w.redis.log, w.redis.clients[client].keys, w.redis.clients[client].readAt, key);
      case Delete(cleared) =>
        forall from, to
          ensures CountBetween(Clear(w.redis.log, cleared), key, from, to) == CountBetween(w.redis.log, key, from, to)
        {
          OtherClearLeavesEvents(w.redis.log, cleared, key, from, to);
        }
      case _ =>
    }
    OthersKeepRoom(w.redis.log, after.log, key, w.admitted, l, windows(key));
  }

  lemma StepKeepsRoom(w: World, step: Step, key: string, l: Limits, windows: R.Windows)
    requires HasRoom(w, key, l, windows) && Enabled(w, step, key)
    ensures HasRoom(Next(w, step, key, l, windows), key, l, windows)
  {
    match step
    case Ask(client) => R.StepIsConsistent(w.redis, R.ReadTimeForCheck(client, [key]), windows);
    case Answer(client) => AnswerKeepsRoom(w, client, key, l, windows);
    case ReadTime(client) => R.StepIsConsistent(w.redis, R.ReadTimeForRecord(client, [key]), windows);
    case Execute(client) => ExecuteKeepsRoom(w, client, key, l, windows);
    case GiveUp(client) =>
      if R.Enabled(w.redis, R.CutOff(client)) {
        R.StepIsConsistent(w.redis, R.CutOff(client), windows);
      }
      LeavingKeepsRoom(w.redis.log, key, w.admitted, l, windows(key), client);
    case Other(other) => OtherKeepsRoom(w, other, key, l, windows);
  }

  lemma StartHasRoom(key: string, l: Limits, windows: R.Windows)
    requires l.max + l.k >= 1
    ensures HasRoom(START, key, l, windows)
  {
    R.StartIsConsistent(windows);
    NothingHasRoom(key, l, windows(key));
  }

  lemma {:induction false} RunKeepsRoom(steps: seq<Step>, key: string, l: Limits, windows: R.Windows)
    requires l.max + l.k >= 1
    ensures HasRoom(Run(steps, key, l, windows), key, l, windows)
  {
    if steps == [] {
      StartHasRoom(key, l, windows);
    } else {
      var before, step := steps[..|steps| - 1], steps[|steps| - 1];
      RunKeepsRoom(before, key, l, windows);
      var w := Run(before, key, l, windows);
      if Enabled(w, step, key) {
        StepKeepsRoom(w, step, key, l, windows);
      }
    }
  }

  /**
   On every schedule of the Redis limiter, every closed interval of the window's length holds at most max + k - 1
   recorded starts, however long a record takes: exactly the configured limit when starts do not overlap.
   */
  lemma StartsPerWindow(steps: seq<Step>, key: string, l: Limits, windows: R.Windows, from: real)
    requires l.max + l.k >= 1
    ensures StartsFrom(Run(steps, key, l, windows).redis.log, key, from, windows(key)) <= l.max + l.k - 1
  {
    RunKeepsRoom(steps, key, l, windows);
    var w := Run(steps, key, l, windows);
    assert RoomAt(w.redis.log, key, w.admitted, l, windows(key), from);
  }

  // ----- on the in-memory limiter -----

  /** One scope of the in-memory limiter, of which the log is what it answers from. */
  datatype MemoryWorld = MemoryWorld(log: Log, clock: real, admitted: map<nat, real>)

  datatype MemoryStep =
    | Check(request: nat, at: real)
    | Record(request: nat, at: real)
    | Leave(request: nat)
    | CheckOther(other: string, at: real)
    | RecordOther(other: string, at: real)

  const MEMORY_START := MemoryWorld([], 0.0, map[])

  predicate MemoryEnabled(w: MemoryWorld, step: MemoryStep, key: string) {
    match step
    case Check(request, at) => w.clock <= at && request !in w.admitted
    case Record(request, at) => w.clock <= at && request in w.admitted
    case Leave(request) => request in w.admitted
    case CheckOther(other, at) => w.clock <= at && other != key
    case RecordOther(other, at) => w.clock <= at && other != key
  }

  function MemoryNext(w: MemoryWorld, step: MemoryStep, key: string, l: Limits, window: nat, cap: nat): MemoryWorld
    requires MemoryEnabled(w, step, key)
  {
    match step
    case Check(request, at) =>
      var told := CountSince(w.log, key, at - window as real);
      w.(clock := at, admitted := if GoesOn(told, w.admitted, l) then w.admitted[request := at] else w.admitted)
    case Record(request, at) => MemoryWorld(RecordCapped(w.log, key, at, window, cap), at, w.admitted - {request})
    case Leave(request) => w.(admitted := w.admitted - {request})
    case CheckOther(_, at) => w.(clock := at)
    case RecordOther(other, at) => w.(log := RecordCapped(w.log, other, at, window, cap), clock := at)
  }

  function MemoryDo(w: MemoryWorld, step: MemoryStep, key: string, l: Limits, window: nat, cap: nat): MemoryWorld {
    if MemoryEnabled(w, step, key) then MemoryNext(w, step, key, l, window, cap) else w
  }

  function MemoryRun(steps: seq<MemoryStep>, key: string, l: Limits, window: nat, cap: nat): MemoryWorld {
    if steps == [] then MEMORY_START
    else MemoryDo(MemoryRun(steps[..|steps| - 1], key, l, window, cap), steps[|steps| - 1], key, l, window, cap)
  }

  ghost predicate MemoryHasRoom(w: MemoryWorld, key: string, l: Limits, window: nat) {
    && (forall request :: request in w.admitted ==> w.admitted[request] <= w.clock)
    && Room(w.log, key, w.admitted, l, window)
  }

  lemma MemoryStepKeepsRoom(w: MemoryWorld, step: MemoryStep, key: string, l: Limits, window: nat, cap: nat)
    requires MemoryHasRoom(w, key, l, window) && MemoryEnabled(w, step, key)
    ensures MemoryHasRoom(MemoryNext(w, step, key, l, window, cap), key, l, window)
  {
    match step
    case Check(request, at) =>
      if GoesOn(CountSince(w.log, key, at - window as real), w.admitted, l) {
        AdmittingKeepsRoom(w.log, key, w.admitted, l, window, request, at);
      }
    case Record(request, at) =>
      RecordingKeepsRoom(w.log, key, w.admitted, l, window, request, at);
      LeavingKeepsRoom(w.log, key, w.admitted, l, window, request);
    case Leave(request) => LeavingKeepsRoom(w.log, key, w.admitted, l, window, request);
    case CheckOther(_, _) =>
    case RecordOther(other, at) =>
      var after := RecordCapped(w.log, other, at, window, cap);
      forall from, to ensures CountBetween(after, key, from, to) == CountBetween(w.log, key, from, to) {
        CountBetweenAppend(w.log, Event(other, at), key, from, to);
      }
      OthersKeepRoom(w.log, after, key, w.admitted, l, window);
  }

  lemma {:induction false} MemoryRunKeepsRoom(steps: seq<MemoryStep>, key: string, l: Limits, window: nat, cap: nat)
    requires l.max + l.k >= 1
    ensures MemoryHasRoom(MemoryRun(steps, key, l, window, cap), key, l, window)
  {
    if steps == [] {
      NothingHasRoom(key, l, window);
    } else {
      var n := |steps| - 1;
      MemoryRunKeepsRoom(steps[..n], key, l, window, cap);
      var w := MemoryRun(steps[..n], key, l, window, cap);
      if MemoryEnabled(w, steps[n], key) {
        MemoryStepKeepsRoom(w, steps[n], key, l, window, cap);
      }
    }
  }

  /** The bound on every run of the in-memory limiter. */
  lemma MemoryStartsPerWindow(steps: seq<MemoryStep>, key: string, l: Limits, window: nat, cap: nat)
    requires l.max + l.k >= 1
    ensures forall from :: StartsFrom(MemoryRun(steps, key, l, window, cap).log, key, from, window) <= l.max + l.k - 1
  {
    MemoryRunKeepsRoom(steps, key, l, window, cap);
    var w := MemoryRun(steps, key, l, window, cap);
    forall from ensures StartsFrom(w.log, key, from, window) <= l.max + l.k - 1 {
      assert RoomAt(w.log, key, w.admitted, l, window, from);
    }
  }

  /** One step, performed on the ordered map; the count it is told is the map's own. */
  method PerformStep(scope: M.BucketMap, step: MemoryStep, key: string, l: Limits, clock: real, admitted: map<nat, real>)
    returns (clock1: real, admitted1: map<nat, real>)
    requires scope.Valid() && scope.clock <= clock
    modifies scope
    ensures scope.Valid() && scope.clock <= clock1
    ensures MemoryWorld(scope.log, clock1, admitted1)
         == MemoryDo(MemoryWorld(old(scope.log), clock, admitted), step, key, l, scope.window, scope.cap)
  {
    clock1, admitted1 := clock, admitted;
    match step
    case Check(request, at) =>
      if clock <= at && request !in admitted {
        var told := scope.CountActive(key, at);
        clock1 := at;
        if GoesOn(told, admitted, l) {
          admitted1 := admitted[request := at];
        }
      }
    case Record(request, at) =>
      if clock <= at && request in admitted {
        var _ := scope.Record(key, at);
        clock1, admitted1 := at, admitted - {request};
      }
    case Leave(request) =>
      admitted1 := admitted - {request};
    case CheckOther(other, at) =>
      if clock <= at && other != key {
        var _ := scope.CountActive(other, at);
        clock1 := at;
      }
    case RecordOther(other, at) =>
      if clock <= at && other != key {
        var _ := scope.Record(other, at);
        clock1 := at;
      }
  }

  /**
   The same bound on the in-memory limiter, whose own answers decide which starts go on: the run drives one of its
   ordered maps, and the log the map stands for holds at most max + k - 1 starts in every closed window.
   */
  method StartsInMemory(steps: seq<MemoryStep>, key: string, l: Limits, window: nat, cap: nat)
    returns (scope: M.BucketMap)
    requires l.max + l.k >= 1
    ensures fresh(scope) && scope.Valid() && scope.log == MemoryRun(steps, key, l, window, cap).log
    ensures forall from :: StartsFrom(scope.log, key, from, window) <= l.max + l.k - 1
  {
    scope := new M.BucketMap(window, cap);
    var clock, admitted: map<nat, real> := 0.0, map[];
    for i := 0 to |steps|
      invariant fresh(scope) && scope.Valid() && scope.window == window && scope.cap == cap && scope.clock <= clock
      invariant MemoryWorld(scope.log, clock, admitted) == MemoryRun(steps[..i], key, l, window, cap)
    {
      assert steps[..i + 1][..i] == steps[..i];
      clock, admitted := PerformStep(scope, steps[i], key, l, clock, admitted);
    }
    assert steps[..|steps|] == steps;
    MemoryStartsPerWindow(steps, key, l, window, cap);
  }

  // ----- the bound is reached on the in-memory limiter -----
  //
  // max - 1 starts one after the other, then k checks that are all told max - 1, then the k records, all at time 0.

  function Burst(key: string, n: nat): Log {
    seq(n, i => Event(key, 0.0))
  }

  lemma {:induction false} BurstCounts(key: string, n: nat, since: real)
    requires since <= 0.0
    ensures CountSince(Burst(key, n), key, since) == n && CountBetween(Burst(key, n), key, 0.0, 0.0) == n
  {
    if n > 0 {
      BurstCounts(key, n - 1, since);
      assert Burst(key, n)[..n - 1] == Burst(key, n - 1);
    }
  }

  /** The requests from `from` up to `to`, and no others, are between check and record since time 0. */
  ghost predicate Waiting(admitted: map<nat, real>, from: nat, to: nat) {
    && (forall request :: request in admitted <==> from <= request < to)
    && (forall request :: request in admitted ==> admitted[request] == 0.0)
    && |admitted| == to - from
  }

  lemma OneMoreWaits(admitted: map<nat, real>, from: nat, to: nat)
    requires Waiting(admitted, from, to) && from <= to
    ensures Waiting(admitted[to := 0.0], from, to + 1)
  {
  }

  lemma OneLessWaits(admitted: map<nat, real>, from: nat, to: nat)
    requires Waiting(admitted, from, to) && from < to
    ensures Waiting(admitted - {from}, from + 1, to)
  {
    assert (admitted - {from}).Keys == admitted.Keys - {from};
    assert |admitted - {from}| == |(admitted - {from}).Keys| && |admitted| == |admitted.Keys|;
  }

  ghost predicate MemoryReachable(w: MemoryWorld, key: string, l: Limits, window: nat, cap: nat) {
    exists steps :: MemoryRun(steps, key, l, window, cap) == w
  }

  lemma MemoryReachesNext(w: MemoryWorld, step: MemoryStep, key: string, l: Limits, window: nat, cap: nat)
    requires MemoryReachable(w, key, l, window, cap)
    ensures MemoryReachable(MemoryDo(w, step, key, l, window, cap), key, l, window, cap)
  {
    var steps :| MemoryRun(steps, key, l, window, cap) == w;
    assert (steps + [step])[..|steps|] == steps;
    assert MemoryRun(steps + [step], key, l, window, cap) == MemoryDo(w, step, key, l, window, cap);
  }

  /** A reachable world at time 0 with n starts recorded and some waiting. */
  ghost predicate MemoryStands(w: MemoryWorld, n: nat, from: nat, to: nat, key: string, l: Limits, window: nat, cap: nat) {
    && MemoryReachable(w, key, l, window, cap)
    && w.log == Burst(key, n) && w.clock == 0.0 && Waiting(w.admitted, from, to)
  }

  lemma MemoryCheckPasses(w: MemoryWorld, n: nat, from: nat, to: nat, key: string, l: Limits, window: nat, cap: nat)
    returns (after: MemoryWorld)
    requires MemoryStands(w, n, from, to, key, l, window, cap) && from <= to && n < l.max && to - from < l.k
    ensures MemoryStands(after, n, from, to + 1, key, l, window, cap)
  {
    BurstCounts(key, n, 0.0 - window as real);
    OneMoreWaits(w.admitted, from, to);
    after := MemoryDo(w, Check(to, 0.0), key, l, window, cap);
    MemoryReachesNext(w, Check(to, 0.0), key, l, window, cap);
  }

  /** With room for the key, the record is kept. */
  lemma MemoryRecordPasses(w: MemoryWorld, n: nat, from: nat, to: nat, key: string, l: Limits, window: nat, cap: nat)
    returns (after: MemoryWorld)
    requires MemoryStands(w, n, from, to, key, l, window, cap) && from < to && cap >= 1
    ensures MemoryStands(after, n + 1, from + 1, to, key, l, window, cap)
  {
    var live := LiveKeys(w.log, 0.0 - window as real);
    SubsetSize(live, {key});
    assert live == {key} || live == {};
    assert Burst(key, n) + [Event(key, 0.0)] == Burst(key, n + 1);
    OneLessWaits(w.admitted, from, to);
    after := MemoryDo(w, Record(from, 0.0), key, l, window, cap);
    MemoryReachesNext(w, Record(from, 0.0), key, l, window, cap);
  }

  lemma {:induction false} MemorySingles(n: nat, key: string, l: Limits, window: nat, cap: nat) returns (w: MemoryWorld)
    requires n < l.max && l.k >= 1 && cap >= 1
    ensures MemoryStands(w, n, 0, 0, key, l, window, cap)
  {
    if n == 0 {
      w := MEMORY_START;
      assert MemoryRun([], key, l, window, cap) == w;
    } else {
      var before := MemorySingles(n - 1, key, l, window, cap);
      var checked := MemoryCheckPasses(before, n - 1, 0, 0, key, l, window, cap);
      w := MemoryRecordPasses(checked, n - 1, 0, 1, key, l, window, cap);
    }
  }

  lemma {:induction false} MemoryChecks(to: nat, key: string, l: Limits, window: nat, cap: nat) returns (w: MemoryWorld)
    requires l.max >= 1 && l.k >= 1 && to <= l.k && cap >= 1
    ensures MemoryStands(w, l.max - 1, 0, to, key, l, window, cap)
  {
    if to == 0 {
      w := MemorySingles(l.max - 1, key, l, window, cap);
    } else {
      var before := MemoryChecks(to - 1, key, l, window, cap);
      w := MemoryCheckPasses(before, l.max - 1, 0, to - 1, key, l, window, cap);
    }
  }

  lemma {:induction false} MemoryRecords(from: nat, key: string, l: Limits, window: nat, cap: nat) returns (w: MemoryWorld)
    requires l.max >= 1 && l.k >= 1 && from <= l.k && cap >= 1
    ensures MemoryStands(w, l.max - 1 + from, from, l.k, key, l, window, cap)
  {
    if from == 0 {
      w := MemoryChecks(l.k, key, l, window, cap);
    } else {
      var before := MemoryRecords(from - 1, key, l, window, cap);
      w := MemoryRecordPasses(before, l.max - 2 + from, from - 1, l.k, key, l, window, cap);
    }
  }

  /** For every limit and every overlap there is a run with max + k - 1 starts at one instant. */
  lemma BoundIsReached(key: string, l: Limits, window: nat, cap: nat)
    requires l.max >= 1 && l.k >= 1 && cap >= 1
    ensures exists steps ::
              CountBetween(MemoryRun(steps, key, l, window, cap).log, key, 0.0, 0.0) == l.max + l.k - 1
  {
    var w := MemoryRecords(l.k, key, l, window, cap);
    BurstCounts(key, l.max + l.k - 1, 0.0);
    var steps :| MemoryRun(steps, key, l, window, cap) == w;
  }

  // ----- the bound is reached on the Redis limiter -----

  function Zeros(n: nat): seq<real> {
    seq(n, i => 0.0)
  }

  lemma {:induction false} ZerosRemain(n: nat, since: real)
    requires since <= 0.0
    ensures R.Remaining(Zeros(n), since) == Zeros(n) && CountFrom(Zeros(n), since) == n
  {
    CountFromAll(Zeros(n), since);
    if n > 0 {
      ZerosRemain(n - 1, since);
      assert Zeros(n)[..n - 1] == Zeros(n - 1);
    }
  }

  ghost predicate Reachable(w: World, key: string, l: Limits, windows: R.Windows) {
    exists steps :: Run(steps, key, l, windows) == w
  }

  lemma ReachesNext(w: World, step: Step, key: string, l: Limits, windows: R.Windows)
    requires Reachable(w, key, l, windows)
    ensures Reachable(Do(w, step, key, l, windows), key, l, windows)
  {
    var steps :| Run(steps, key, l, windows) == w;
    assert (steps + [step])[..|steps|] == steps;
    assert Run(steps + [step], key, l, windows) == Do(w, step, key, l, windows);
  }

  /** A reachable world at time 0, with n starts recorded, some waiting, and the given operations under way. */
  ghost predicate Stands(w: World, n: nat, from: nat, to: nat, clients: map<nat, R.Client>,
                         key: string, l: Limits, windows: R.Windows)
  {
    && Reachable(w, key, l, windows)
    && w.redis.now == 0.0 && w.redis.clients == clients && w.redis.log == Burst(key, n)
    && R.Scores(w.redis.store, key) == Zeros(n) && Waiting(w.admitted, from, to)
  }

  function AskedBy(client: nat, key: string): map<nat, R.Client> {
    map[client := R.Checking([key], 0.0, [])]
  }

  function RecordedBy(client: nat, key: string): map<nat, R.Client> {
    map[client := R.Recording([key], 0.0)]
  }

  lemma AskPasses(w: World, n: nat, from: nat, to: nat, key: string, l: Limits, windows: R.Windows)
    returns (after: World)
    requires Stands(w, n, from, to, map[], key, l, windows)
    ensures Stands(after, n, from, to, AskedBy(to, key), key, l, windows)
  {
    after := Do(w, Ask(to), key, l, windows);
    ReachesNext(w, Ask(to), key, l, windows);
  }

  lemma Answers(w: World, client: nat, key: string, l: Limits, windows: R.Windows)
    requires w.redis.now == 0.0 && w.redis.clients == AskedBy(client, key) && client !in w.admitted
    requires GoesOn(R.ZCount(w.redis.store, key, 0.0 - windows(key) as real), w.admitted, l)
    ensures Do(w, Answer(client), key, l, windows) == World(w.redis.(clients := map[]), w.admitted[client := 0.0])
  {
    var done := Do(w, Answer(client), key, l, windows);
    assert R.CountReturned(w.redis, client, windows) == R.ZCount(w.redis.store, key, 0.0 - windows(key) as real);
    assert done.redis.clients == map[];
  }

  lemma AnswerPasses(w: World, n: nat, from: nat, to: nat, key: string, l: Limits, windows: R.Windows)
    returns (after: World)
    requires Stands(w, n, from, to, AskedBy(to, key), key, l, windows) && from <= to && n < l.max && to - from < l.k
    ensures Stands(after, n, from, to + 1, map[], key, l, windows)
  {
    ZerosRemain(n, 0.0 - windows(key) as real);
    OneMoreWaits(w.admitted, from, to);
    Answers(w, to, key, l, windows);
    ReachesNext(w, Answer(to), key, l, windows);
    after := World(w.redis.(clients := map[]), w.admitted[to := 0.0]);
  }

  lemma ReadPasses(w: World, n: nat, from: nat, to: nat, key: string, l: Limits, windows: R.Windows)
    returns (after: World)
    requires Stands(w, n, from, to, map[], key, l, windows) && from < to
    ensures Stands(after, n, from, to, RecordedBy(from, key), key, l, windows)
  {
    after := Do(w, ReadTime(from), key, l, windows);
    ReachesNext(w, ReadTime(from), key, l, windows);
  }

  lemma Executes(w: World, client: nat, key: string, l: Limits, windows: R.Windows) returns (done: World)
    requires w.redis.now == 0.0 && w.redis.clients == RecordedBy(client, key) && client in w.admitted
    requires Reachable(w, key, l, windows)
    ensures Reachable(done, key, l, windows)
    ensures done.redis.now == 0.0 && done.redis.clients == map[]
    ensures done.redis.log == w.redis.log + [Event(key, 0.0)]
    ensures R.Scores(done.redis.store, key)
         == R.Remaining(R.Scores(w.redis.store, key), 0.0 - windows(key) as real) + [0.0]
    ensures done.admitted == w.admitted - {client}
  {
    done := Do(w, Execute(client), key, l, windows);
    ReachesNext(w, Execute(client), key, l, windows);
    assert [key][..0] == [];
    assert R.LogKeys(w.redis.log, [], 0.0) == w.redis.log;
    assert R.RecordKeys(w.redis.store, [], 0.0, 0.0, windows) == w.redis.store;
    assert w.redis.clients - {client} == map[];
  }

  lemma ExecutePasses(w: World, n: nat, from: nat, to: nat, key: string, l: Limits, windows: R.Windows)
    returns (after: World)
    requires Stands(w, n, from, to, RecordedBy(from, key), key, l, windows) && from < to
    ensures Stands(after, n + 1, from + 1, to, map[], key, l, windows)
  {
    OneLessWaits(w.admitted, from, to);
    after := Executes(w, from, key, l, windows);
    assert after.redis.log == Burst(key, n + 1) && R.Scores(after.redis.store, key) == Zeros(n + 1) by {
      ZerosRemain(n, 0.0 - windows(key) as real);
      BurstSnoc(key, n);
    }
  }

  lemma BurstSnoc(key: string, n: nat)
    ensures Burst(key, n) + [Event(key, 0.0)] == Burst(key, n + 1) && Zeros(n) + [0.0] == Zeros(n + 1)
  {
  }

  lemma {:induction false} AllSingle(n: nat, key: string, l: Limits, windows: R.Windows) returns (w: World)
    requires n < l.max && l.k >= 1
    ensures Stands(w, n, 0, 0, map[], key, l, windows)
  {
    if n == 0 {
      w := START;
      assert Run([], key, l, windows) == w;
    } else {
      var before := AllSingle(n - 1, key, l, windows);
      var asked := AskPasses(before, n - 1, 0, 0, key, l, windows);
      var checked := AnswerPasses(asked, n - 1, 0, 0, key, l, windows);
      var reading := ReadPasses(checked, n - 1, 0, 1, key, l, windows);
      w := ExecutePasses(reading, n - 1, 0, 1, key, l, windows);
    }
  }

  lemma {:induction false} AllCheck(to: nat, key: string, l: Limits, windows: R.Windows) returns (w: World)
    requires l.max >= 1 && l.k >= 1 && to <= l.k
    ensures Stands(w, l.max - 1, 0, to, map[], key, l, windows)
  {
    if to == 0 {
      w := AllSingle(l.max - 1, key, l, windows);
    } else {
      var before := AllCheck(to - 1, key, l, windows);
      var asked := AskPasses(before, l.max - 1, 0, to - 1, key, l, windows);
      w := AnswerPasses(asked, l.max - 1, 0, to - 1, key, l, windows);
    }
  }

  lemma {:induction false} AllRecord(from: nat, key: string, l: Limits, windows: R.Windows) returns (w: World)
    requires l.max >= 1 && l.k >= 1 && from <= l.k
    ensures Stands(w, l.max - 1 + from, from, l.k, map[], key, l, windows)
  {
    if from == 0 {
      w := AllCheck(l.k, key, l, windows);
    } else {
      var before := AllRecord(from - 1, key, l, windows);
      var reading := ReadPasses(before, l.max - 2 + from, from - 1, l.k, key, l, windows);
      w := ExecutePasses(reading, l.max - 2 + from, from - 1, l.k, key, l, windows);
    }
  }

  /** For every limit and every overlap there is a schedule of the Redis limiter with max + k - 1 starts at one instant. */
  lemma BoundIsReachedOnRedis(key: string, l: Limits, windows: R.Windows)
    requires l.max >= 1 && l.k >= 1
    ensures exists steps :: CountBetween(Run(steps, key, l, windows).redis.log, key, 0.0, 0.0) == l.max + l.k - 1
  {
    var w := AllRecord(l.k, key, l, windows);
    BurstCounts(key, l.max + l.k - 1, 0.0);
    var steps :| Run(steps, key, l, windows) == w;
  }
}
