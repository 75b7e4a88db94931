/**
 The discovery and JWKS caches of the OIDC provider client: positive entries, negative entries, and a forced
 JWKS refresh with a cooldown.  Calls are sequential; times are whole microseconds and do not go back.
 */
module OidcMetadataCache {
  import opened Basics

  const SECOND := 1_000_000
  const CACHE_TTL := 3600 * SECOND
  const NEGATIVE_CACHE_TTL := 60 * SECOND
  const JWKS_REFRESH_COOLDOWN := 60 * SECOND

  /** A JSON document, of which only the key ids of a key set matter here. */
  datatype Json = Json(text: string, kids: set<string>)

  datatype Entry = Entry(value: Json, expiresAt: int)

  datatype Fetched = Loaded(value: Json) | LoadFailed

  datatype Answer = Value(json: Json) | Unavailable

  /** What the dictionaries hold for one provider. */
  datatype Slots = Slots(positive: Option<Entry>, negative: Option<int>, refreshedAt: Option<int>)

  predicate PositiveLive(s: Slots, now: int) {
    s.positive.Some? && s.positive.value.expiresAt > now
  }

  predicate NegativeLive(s: Slots, now: int) {
    s.negative.Some? && s.negative.value > now
  }

  /** `_cached_json` makes a request only when neither entry is live. */
  predicate MakesLoad(s: Slots, now: int) {
    !PositiveLive(s, now) && !NegativeLive(s, now)
  }

  function AfterCall(s: Slots, now: int, fetched: Fetched): Slots {
    if !MakesLoad(s, now) then s
    else
      match fetched
      case Loaded(value) => s.(positive := Some(Entry(value, now + CACHE_TTL)), negative := None)
      case LoadFailed => s.(negative := Some(now + NEGATIVE_CACHE_TTL))
  }

  function AnswerOf(s: Slots, now: int, fetched: Fetched): Answer {
    if PositiveLive(s, now) then Value(s.positive.value.value)
    else if NegativeLive(s, now) then Unavailable
    else if fetched.Loaded? then Value(fetched.value)
    else Unavailable
  }

  /** The first half of a forced refresh: the positive entry goes, and its time is noted. */
  function AfterDrop(s: Slots, at: int): Slots {
    s.(positive := None, refreshedAt := Some(at))
  }

  /** `_should_refresh_jwks`, the part that reads the clock. */
  predicate CooledDown(s: Slots, now: int) {
    s.refreshedAt == None || now - s.refreshedAt.value >= JWKS_REFRESH_COOLDOWN
  }

  // ----- histories of one provider -----

  /** One request to the provider: when it was made and what came back. */
  datatype Load = Load(at: int, result: Fetched)

  datatype World = World(slots: Slots, loads: seq<Load>, clock: int)

  /**
   A call at `at`; or a forced refresh, which reads the clock three times: for the cooldown, for the note in the
   refresh dictionary, and in `_cached_json`.
   */
  datatype Op = Call(at: int, fetched: Fetched) | Refresh(checkedAt: int, droppedAt: int, at: int, fetched: Fetched)

  const Empty := World(Slots(None, None, None), [], 0)

  predicate Enabled(w: World, op: Op) {
    match op
    case Call(at, _) => w.clock <= at
    case Refresh(checkedAt, droppedAt, at, _) =>
      w.clock <= checkedAt <= droppedAt <= at && CooledDown(w.slots, checkedAt)
  }

  function CalledAt(slots: Slots, loads: seq<Load>, at: int, fetched: Fetched): World {
    World(AfterCall(slots, at, fetched), if MakesLoad(slots, at) then loads + [Load(at, fetched)] else loads, at)
  }

  function Do(w: World, op: Op): World {
    if !Enabled(w, op) then w
    else
      match op
      case Call(at, fetched) => CalledAt(w.slots, w.loads, at, fetched)
      case Refresh(_, droppedAt, at, fetched) => CalledAt(AfterDrop(w.slots, droppedAt), w.loads, at, fetched)
  }

  function RunFrom(w: World, ops: seq<Op>): World
    decreases |ops|
  {
    if ops == [] then w else RunFrom(Do(w, ops[0]), ops[1..])
  }

  /** A discovery document is never refreshed by force. */
  predicate CallsOnly(ops: seq<Op>) {
    forall i :: 0 <= i < |ops| ==> ops[i].Call?
  }

  ghost predicate SpacedBy(loads: seq<Load>, apart: nat, gap: int) {
    forall i :: 0 <= i < |loads| - apart ==> loads[i + apart].at - loads[i].at >= gap
  }

  /** What the latest load left behind. */
  ghost predicate EntriesMatch(w: World) {
    if w.loads == [] then w.slots.positive == None && w.slots.negative == None
    else
      var last := w.loads[|w.loads| - 1];
      && last.at <= w.clock
      && match last.result
         case Loaded(value) => w.slots.negative == None && w.slots.positive == Some(Entry(value, last.at + CACHE_TTL))
         case LoadFailed =>
           && w.slots.negative == Some(last.at + NEGATIVE_CACHE_TTL)
           && (w.slots.positive.Some? ==> w.slots.positive.value.expiresAt <= last.at)
  }

  /** Two JWKS loads less than a minute apart leave a refresh time that is not before the first of them. */
  ghost predicate CooldownCovers(w: World) {
    && (w.slots.refreshedAt.Some? ==> w.slots.refreshedAt.value <= w.clock)
    && (|w.loads| >= 2 ==> w.loads[|w.loads| - 2].at <= w.loads[|w.loads| - 1].at)
    && (|w.loads| >= 2 && w.loads[|w.loads| - 1].at - w.loads[|w.loads| - 2].at < JWKS_REFRESH_COOLDOWN ==>
          && w.loads[|w.loads| - 2].result.Loaded?
          && w.slots.refreshedAt.Some? && w.slots.refreshedAt.value >= w.loads[|w.loads| - 2].at)
  }

  lemma StepMatches(w: World, op: Op)
    requires EntriesMatch(w)
    ensures EntriesMatch(Do(w, op))
  {
  }

  /** A new load is a minute after a failed one, or forced, or after the positive entry expired. */
  lemma NewLoadIsLate(w: World, op: Op)
    requires EntriesMatch(w) && Enabled(w, op) && w.loads != []
    requires Do(w, op).loads != w.loads
    ensures var last := w.loads[|w.loads| - 1];
            && last.at <= op.at
            && (last.result.LoadFailed? || op.Call? ==> op.at - last.at >= JWKS_REFRESH_COOLDOWN)
  {
  }

  lemma SnocIsSpaced(loads: seq<Load>, load: Load, apart: nat, gap: int)
    requires SpacedBy(loads, apart, gap)
    requires |loads| >= apart >= 1 ==> load.at - loads[|loads| - apart].at >= gap
    ensures apart >= 1 ==> SpacedBy(loads + [load], apart, gap)
  {
  }

  lemma StepCovers(w: World, op: Op)
    requires EntriesMatch(w) && CooldownCovers(w)
    ensures CooldownCovers(Do(w, op))
  {
    if Enabled(w, op) && w.loads != [] && Do(w, op).loads != w.loads {
      NewLoadIsLate(w, op);
    }
  }

  lemma StepSpaces(w: World, op: Op)
    requires EntriesMatch(w) && CooldownCovers(w) && SpacedBy(w.loads, 2, JWKS_REFRESH_COOLDOWN)
    ensures SpacedBy(Do(w, op).loads, 2, JWKS_REFRESH_COOLDOWN)
  {
    if Enabled(w, op) && Do(w, op).loads != w.loads {
      var load := Load(op.at, op.fetched);
      assert Do(w, op).loads == w.loads + [load];
      if w.loads != [] {
        NewLoadIsLate(w, op);
      }
      SnocIsSpaced(w.loads, load, 2, JWKS_REFRESH_COOLDOWN);
    }
  }

  lemma {:induction false} RunMatches(w: World, ops: seq<Op>)
    requires EntriesMatch(w)
    ensures EntriesMatch(RunFrom(w, ops))
    decreases |ops|
  {
    if ops != [] {
      StepMatches(w, ops[0]);
      RunMatches(Do(w, ops[0]), ops[1..]);
    }
  }

  lemma {:induction false} RunCovers(w: World, ops: seq<Op>)
    requires EntriesMatch(w) && CooldownCovers(w) && SpacedBy(w.loads, 2, JWKS_REFRESH_COOLDOWN)
    ensures CooldownCovers(RunFrom(w, ops)) && SpacedBy(RunFrom(w, ops).loads, 2, JWKS_REFRESH_COOLDOWN)
    decreases |ops|
  {
    if ops != [] {
      StepMatches(w, ops[0]);
      StepCovers(w, ops[0]);
      StepSpaces(w, ops[0]);
      RunCovers(Do(w, ops[0]), ops[1..]);
    }
  }

  lemma {:induction false} CallsAreSpaced(w: World, ops: seq<Op>)
    requires CallsOnly(ops) && EntriesMatch(w) && SpacedBy(w.loads, 1, NEGATIVE_CACHE_TTL)
    ensures SpacedBy(RunFrom(w, ops).loads, 1, NEGATIVE_CACHE_TTL)
    decreases |ops|
  {
    if ops != [] {
      StepMatches(w, ops[0]);
      var after := Do(w, ops[0]);
      if after.loads != w.loads {
        assert after.loads[..|w.loads|] == w.loads;
      }
      CallsAreSpaced(after, ops[1..]);
    }
  }

  /** On every run of calls and forced refreshes, three successive JWKS loads span at least a minute. */
  lemma ThreeLoadsSpanAMinute(ops: seq<Op>)
    ensures SpacedBy(RunFrom(Empty, ops).loads, 2, JWKS_REFRESH_COOLDOWN)
  {
    RunCovers(Empty, ops);
  }

  /** On every run of discovery calls, successive loads are at least a minute apart. */
  lemma DiscoveryLoadsAreAMinuteApart(ops: seq<Op>)
    requires CallsOnly(ops)
    ensures SpacedBy(RunFrom(Empty, ops).loads, 1, NEGATIVE_CACHE_TTL)
  {
    CallsAreSpaced(Empty, ops);
  }

  /** What a step's call answers: the call itself, or that of a forced refresh after its drop. */
  function StepAnswer(w: World, op: Op): Answer {
    AnswerOf(if op.Refresh? then AfterDrop(w.slots, op.droppedAt) else w.slots, op.at, op.fetched)
  }

  /**
   Exactly when a step makes a request: at first; an hour after a successful load, or at once if forced; a minute
   after a failed one, forced or not.
   */
  lemma LoadsExactlyWhen(ops: seq<Op>, op: Op)
    requires Enabled(RunFrom(Empty, ops), op)
    ensures var w := RunFrom(Empty, ops);
            Do(w, op).loads == w.loads + [Load(op.at, op.fetched)] <==>
              (w.loads != [] ==>
                 var last := w.loads[|w.loads| - 1];
                 if last.result.LoadFailed? then op.at - last.at >= 60 * SECOND
                 else op.Refresh? || op.at - last.at >= 3600 * SECOND)
    ensures var w := RunFrom(Empty, ops);
            Do(w, op).loads == w.loads || Do(w, op).loads == w.loads + [Load(op.at, op.fetched)]
  {
    RunMatches(Empty, ops);
  }

  /** Every answer is what the latest load, this step's included, brought: its value, or its failure. */
  lemma AnswerIsLatestLoad(ops: seq<Op>, op: Op)
    requires Enabled(RunFrom(Empty, ops), op)
    ensures var w := RunFrom(Empty, ops);
            var loads := Do(w, op).loads;
            && loads != []
            && StepAnswer(w, op) == match loads[|loads| - 1].result
                                    case Loaded(value) => Value(value)
                                    case LoadFailed => Unavailable
  {
    RunMatches(Empty, ops);
  }

  /** A value answered at time t is what the latest load brought, less than the TTL before t. */
  lemma AnswersAreFresh(ops: seq<Op>, op: Op)
    requires Enabled(RunFrom(Empty, ops), op) && StepAnswer(RunFrom(Empty, ops), op).Value?
    ensures var w := RunFrom(Empty, ops);
            var loads := Do(w, op).loads;
            && loads != [] && loads[|loads| - 1].result == Loaded(StepAnswer(w, op).json)
            && 0 <= op.at - loads[|loads| - 1].at < CACHE_TTL
  {
    RunMatches(Empty, ops);
  }

  /** No provider ever has a live positive and a live negative entry together, now or later. */
  lemma NeverBothLive(ops: seq<Op>, now: int)
    requires now >= RunFrom(Empty, ops).clock
    ensures var slots := RunFrom(Empty, ops).slots; !(PositiveLive(slots, now) && NegativeLive(slots, now))
  {
    RunMatches(Empty, ops);
  }

  /**
   Exactly when a step's new load comes less than a minute after the latest one: the step is a forced refresh, the
   latest load succeeded, and the refresh runs within a minute of it.
   */
  lemma CloseLoadCondition(ops: seq<Op>, op: Op)
    requires Enabled(RunFrom(Empty, ops), op) && RunFrom(Empty, ops).loads != []
    ensures var w := RunFrom(Empty, ops);
            var last := w.loads[|w.loads| - 1];
            Do(w, op).loads != w.loads && op.at - last.at < JWKS_REFRESH_COOLDOWN
            <==> op.Refresh? && last.result.Loaded? && op.at - last.at < JWKS_REFRESH_COOLDOWN
  {
    RunMatches(Empty, ops);
    var w := RunFrom(Empty, ops);
    if Do(w, op).loads != w.loads {
      NewLoadIsLate(w, op);
    }
  }

  /** A minute is not kept between two loads: an ordinary load and a forced one can follow each other at once. */
  lemma TwoLoadsCanBeClose(value: Json)
    ensures var w := RunFrom(Empty, [Call(5, Loaded(value)), Refresh(5, 5, 5, Loaded(value))]);
            |w.loads| == 2 && w.loads[0].at == w.loads[1].at
  {
    var ops := [Call(5, Loaded(value)), Refresh(5, 5, 5, Loaded(value))];
    var first := Do(Empty, ops[0]);
    assert first == World(Slots(Some(Entry(value, 5 + CACHE_TTL)), None, None), [Load(5, Loaded(value))], 5);
    var second := Do(first, ops[1]);
    assert second.loads == [Load(5, Loaded(value)), Load(5, Loaded(value))];
    assert ops[1..] == [ops[1]] && ops[1..][1..] == [];
    assert RunFrom(first, ops[1..]) == second;
  }

  // ----- the client -----

  /** The parts of an ID token that decide about keys: its key id, and the key sets that verify it. */
  datatype Token = Token(kid: Option<string>, verifiedBy: set<Json>)

  /** The four clock readings of a token validation, in order, and what its requests would bring back. */
  datatype Trace = Trace(call: int, check: int, drop: int, reload: int, first: Fetched, second: Fetched)

  predicate InOrder(t: Trace) {
    t.call <= t.check <= t.drop <= t.reload
  }

  /** The history of one validation's key lookups, as operations of the machine above. */
  function ValidationOps(slots: Slots, token: Token, t: Trace): seq<Op> {
    if NeedsRefresh(slots, token, t)
    then [Call(t.call, t.first), Refresh(t.check, t.drop, t.reload, t.second)]
    else [Call(t.call, t.first)]
  }

  predicate NeedsRefresh(slots: Slots, token: Token, t: Trace) {
    var answer := AnswerOf(slots, t.call, t.first);
    && answer.Value? && answer.json !in token.verifiedBy
    && token.kid.Some? && token.kid.value !in answer.json.kids
    && CooledDown(AfterCall(slots, t.call, t.first), t.check)
  }

  /** The answer verifies the token. */
  predicate Verifies(answer: Answer, token: Token) {
    answer.Value? && answer.json in token.verifiedBy
  }

  /** One positive and one negative dictionary. */
  class JsonCache {
    var cache: map<string, Entry>
    var negativeCache: map<string, int>

    constructor ()
      ensures cache == map[] && negativeCache == map[]
    {
      cache, negativeCache := map[], map[];
    }

    function Slot(key: string, refreshedAt: Option<int>): Slots
      reads this
    {
      Slots(if key in cache then Some(cache[key]) else None,
            if key in negativeCache then Some(negativeCache[key]) else None, refreshedAt)
    }

    /** The live value, or the live failure, or one load; `fetched` is what a load would bring back. */
    method CachedJson(key: string, now: int, fetched: Fetched) returns (answer: Answer)
      modifies this
      ensures Slot(key, None) == AfterCall(old(Slot(key, None)), now, fetched)
      ensures answer == AnswerOf(old(Slot(key, None)), now, fetched)
      ensures forall k :: k != key ==> Slot(k, None) == old(Slot(k, None))
    {
      if key in cache && cache[key].expiresAt > now {
        return Value(cache[key].value);
      }
      if key in negativeCache && negativeCache[key] > now {
        return Unavailable;
      }
      match fetched
      case LoadFailed =>
        negativeCache := negativeCache[key := now + NEGATIVE_CACHE_TTL];
        answer := Unavailable;
      case Loaded(value) =>
        cache := cache[key := Entry(value, now + CACHE_TTL)];
        negativeCache := negativeCache - {key};
        answer := Value(value);
    }
  }

  class ProviderClient {
    const discovery: JsonCache
    const jwks: JsonCache
    var jwksRefreshAt: map<string, int>

    constructor ()
      ensures jwks != discovery && jwksRefreshAt == map[] && jwks.cache == map[] && jwks.negativeCache == map[]
      ensures discovery.cache == map[] && discovery.negativeCache == map[]
    {
      discovery := new JsonCache();
      jwks := new JsonCache();
      jwksRefreshAt := map[];
    }

    function JwksSlots(provider: string): Slots
      reads this, jwks
    {
      jwks.Slot(provider, if provider in jwksRefreshAt then Some(jwksRefreshAt[provider]) else None)
    }

    /** `_discovery`: metadata that does not validate stays cached and is refused at every call. */
    method Discovery(provider: string, now: int, fetched: Fetched, validates: set<Json>) returns (answer: Answer)
      requires jwks != discovery
      modifies discovery
      ensures discovery.Slot(provider, None) == AfterCall(old(discovery.Slot(provider, None)), now, fetched)
      ensures forall p :: p != provider ==> discovery.Slot(p, None) == old(discovery.Slot(p, None))
      ensures var found := AnswerOf(old(discovery.Slot(provider, None)), now, fetched);
              answer == if found.Value? && found.json in validates then found else Unavailable
    {
      answer := discovery.CachedJson(provider, now, fetched);
      if answer.Value? && answer.json !in validates {
        answer := Unavailable;
      }
    }

    /** `_jwks`, with or without force. */
    method Jwks(provider: string, forceRefresh: bool, drop: int, now: int, fetched: Fetched) returns (answer: Answer)
      modifies this, jwks
      ensures var before := old(JwksSlots(provider));
              var start := if forceRefresh then AfterDrop(before, drop) else before;
              JwksSlots(provider) == AfterCall(start, now, fetched) && answer == AnswerOf(start, now, fetched)
      ensures forall p :: p != provider ==> JwksSlots(p) == old(JwksSlots(p))
    {
      if forceRefresh {
        jwks.cache := jwks.cache - {provider};
        jwksRefreshAt := jwksRefreshAt[provider := drop];
      }
      label dropped:
      answer := jwks.CachedJson(provider, now, fetched);
      forall p | p != provider ensures JwksSlots(p) == old(JwksSlots(p)) {
        assert jwks.Slot(p, None) == old@dropped(jwks.Slot(p, None));
      }
    }

    method ShouldRefreshJwks(provider: string, token: Token, keys: Json, now: int) returns (refresh: bool)
      ensures refresh <==>
                && token.kid.Some? && token.kid.value !in keys.kids
                && (provider in jwksRefreshAt ==> now - jwksRefreshAt[provider] >= 60 * SECOND)
    {
      if token.kid == None || token.kid.value in keys.kids {
        return false;
      }
      refresh := provider !in jwksRefreshAt || now - jwksRefreshAt[provider] >= JWKS_REFRESH_COOLDOWN;
    }

    /**
     The key lookups of `validate_id_token`: one call, and, when no key verifies and the token names a key that
     is not there, at most one forced refresh.  The slots move as the machine's run of those operations; `loads` and
     `clock` are what happened before.  A key set is returned only if it verifies the token, and then it is the one
     the latest request brought.
     */
    method KeysForToken(provider: string, token: Token, t: Trace, ghost loads: seq<Load>, ghost clock: int)
      returns (keys: Option<Json>)
      requires InOrder(t) && clock <= t.call
      modifies this, jwks
      ensures var before := old(JwksSlots(provider));
              JwksSlots(provider) == RunFrom(World(before, loads, clock), ValidationOps(before, token, t)).slots
      ensures keys.Some? ==> keys.value in token.verifiedBy
      ensures keys.Some? && EntriesMatch(World(old(JwksSlots(provider)), loads, clock)) ==>
                var before := old(JwksSlots(provider));
                var after := RunFrom(World(before, loads, clock), ValidationOps(before, token, t)).loads;
                after != [] && after[|after| - 1].result == Loaded(keys.value)
      ensures var before := old(JwksSlots(provider));
              var first := AnswerOf(before, t.call, t.first);
              var second := AnswerOf(AfterDrop(AfterCall(before, t.call, t.first), t.drop), t.reload, t.second);
              var refreshed := first.Value? && token.kid.Some? && token.kid.value !in first.json.kids
                               && (before.refreshedAt.Some? ==> t.check - before.refreshedAt.value >= 60 * SECOND);
              && (Verifies(first, token) ==> keys == Some(first.json))
              && (!Verifies(first, token) && refreshed && Verifies(second, token) ==> keys == Some(second.json))
              && (!Verifies(first, token) && !(refreshed && Verifies(second, token)) ==> keys == None)
    {
      ghost var start := World(JwksSlots(provider), loads, clock);
      ghost var ops := ValidationOps(start.slots, token, t);
      ghost var called := Do(start, ops[0]);
      assert ops[1..] == [] || ops[1..] == [ops[1]];
      assert RunFrom(start, ops) == RunFrom(called, ops[1..]);
      if EntriesMatch(start) {
        RunMatches(start, ops);
      }
      var answer := Jwks(provider, false, t.call, t.call, t.first);
      if answer == Unavailable {
        return None;
      }
      if answer.json in token.verifiedBy {
        return Some(answer.json);
      }
      var refresh := ShouldRefreshJwks(provider, token, answer.json, t.check);
      if !refresh {
        return None;
      }
      assert ops[1..][1..] == [];
      assert RunFrom(called, ops[1..]) == Do(called, ops[1]);
      answer := Jwks(provider, true, t.drop, t.reload, t.second);
      keys := if answer.Value? && answer.json in token.verifiedBy then Some(answer.json) else None;
    }
  }
}
