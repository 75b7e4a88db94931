/**
 The audit rows of rejected-session replays: one row a window and session, updated in place by every replay that
 gets the advisory lock.  Times are microseconds; `occurred_at` is stored in whole milliseconds, and so is every
 time a query compares it with.
 */
module ReplayAudit {
  import opened Basics

  const RECENT_REPLAY_IP_LIMIT := 10

  /** A JSON value; times are kept as times instead of their ISO text. */
  datatype Json =
    | JNull | JBool(flag: bool) | JInt(number: int) | JString(text: string) | JTime(at: int) | JList(items: seq<Json>)

  /** The members of the detail object, by meaning. */
  datatype Field =
    | DistinctIps | LastIp | LastUserAgent | LastReplayedAt | RecentIps | Replays | WindowSeconds
    | OtherField(name: string)

  type Detail = map<Field, Json>

  datatype Event = SessionRejected | OtherEvent(name: string)

  datatype Replay = Replay(session: nat, ip: Option<string>, userAgent: Option<string>, at: int)

  datatype Row = Row(session: nat, event: Event, occurredAt: int, detail: Option<Detail>)

  function Millis(at: int): int {
    at / 1000
  }

  // ----- the fold step on the detail -----

  function TextOrNull(text: Option<string>): Json {
    if text.Some? then JString(text.value) else JNull
  }

  function Strings(items: seq<Json>): seq<string> {
    if items == [] then []
    else Strings(items[..|items| - 1]) + if items[|items| - 1].JString? then [items[|items| - 1].text] else []
  }

  function AsJson(texts: seq<string>): seq<Json> {
    seq(|texts|, i requires 0 <= i < |texts| => JString(texts[i]))
  }

  function RecentIpAddresses(d: Detail): seq<string> {
    if RecentIps in d && d[RecentIps].JList? then Strings(d[RecentIps].items) else []
  }

  /** Python's `isinstance(value, int)` holds of booleans too. */
  function AsInt(value: Json): Option<int> {
    match value
    case JInt(number) => Some(number)
    case JBool(flag) => Some(if flag then 1 else 0)
    case _ => None
  }

  function Max(a: int, b: int): int {
    if a >= b then a else b
  }

  function DistinctIpCount(d: Detail, recent: seq<string>): int {
    var stored := if DistinctIps in d then AsInt(d[DistinctIps]) else Some(|recent|);
    if stored.Some? then Max(stored.value, |recent|) else |recent|
  }

  function ReplayCount(d: Detail): int {
    var stored := if Replays in d then AsInt(d[Replays]) else Some(0);
    if stored.Some? then Max(stored.value, 0) else 0
  }

  function LastOnes(texts: seq<string>): seq<string> {
    if |texts| <= RECENT_REPLAY_IP_LIMIT then texts else texts[|texts| - RECENT_REPLAY_IP_LIMIT..]
  }

  function ReplayDetail(before: Option<Detail>, r: Replay, window: int): Detail {
    var d := if before.Some? then before.value else map[];
    var recent := RecentIpAddresses(d);
    var isNew := r.ip.Some? && r.ip.value !in recent;
    d + map[
      DistinctIps := JInt(DistinctIpCount(d, recent) + if isNew then 1 else 0),
      LastIp := TextOrNull(r.ip),
      LastUserAgent := TextOrNull(r.userAgent),
      LastReplayedAt := JTime(r.at),
      RecentIps := JList(AsJson(if isNew then LastOnes(recent + [r.ip.value]) else recent)),
      Replays := JInt(ReplayCount(d) + 1),
      WindowSeconds := JInt(window)
    ]
  }

  // ----- what a row says about the replays folded into it -----

  function Folded(replays: seq<Replay>, window: int): Detail
    requires replays != []
  {
    var n := |replays| - 1;
    ReplayDetail(if n == 0 then None else Some(Folded(replays[..n], window)), replays[n], window)
  }

  function Addresses(replays: seq<Replay>): set<string> {
    set r | r in replays && r.ip.Some? :: r.ip.value
  }

  function NonNull(replays: seq<Replay>): nat {
    if replays == [] then 0
    else NonNull(replays[..|replays| - 1]) + if replays[|replays| - 1].ip.Some? then 1 else 0
  }

  ghost predicate NoDuplicates(texts: seq<string>) {
    forall i, j :: 0 <= i < j < |texts| ==> texts[i] != texts[j]
  }

  function Members(texts: seq<string>): set<string> {
    set t | t in texts
  }

  /** What the detail's three helpers read out of a row. */
  datatype Summary = Summary(count: int, distinct: int, recent: seq<string>)

  function SummaryOf(d: Detail): Summary {
    Summary(ReplayCount(d), DistinctIpCount(d, RecentIpAddresses(d)), RecentIpAddresses(d))
  }

  function NextSummary(s: Summary, r: Replay): Summary {
    if r.ip.Some? && r.ip.value !in s.recent
    then Summary(s.count + 1, s.distinct + 1, LastOnes(s.recent + [r.ip.value]))
    else s.(count := s.count + 1)
  }

  /**
   The claims a reader of a row relies on: all replays are counted; the recent addresses are at most ten, without
   duplicates, and occurred; the distinct count is between the true one and the number of replays that had an
   address, and both are exact when at most ten addresses occurred.
   */
  ghost predicate Tells(s: Summary, replays: seq<Replay>) {
    && s.count == |replays|
    && |Addresses(replays)| <= s.distinct <= NonNull(replays)
    && |s.recent| <= s.distinct
    && |s.recent| <= RECENT_REPLAY_IP_LIMIT && NoDuplicates(s.recent) && Members(s.recent) <= Addresses(replays)
    && (|Addresses(replays)| <= RECENT_REPLAY_IP_LIMIT ==>
          s.distinct == |Addresses(replays)| && Members(s.recent) == Addresses(replays))
  }

  lemma {:induction false} StringsRoundTrip(texts: seq<string>)
    ensures Strings(AsJson(texts)) == texts
  {
    if texts != [] {
      var n := |texts| - 1;
      StringsRoundTrip(texts[..n]);
      assert AsJson(texts)[..n] == AsJson(texts[..n]);
    }
  }

  lemma {:induction false} NoDuplicatesCount(texts: seq<string>)
    requires NoDuplicates(texts)
    ensures |Members(texts)| == |texts|
  {
    if texts != [] {
      var n := |texts| - 1;
      NoDuplicatesCount(texts[..n]);
      assert Members(texts) == Members(texts[..n]) + {texts[n]};
    }
  }

  lemma AddressesSnoc(replays: seq<Replay>)
    requires replays != []
    ensures var n := |replays| - 1;
            Addresses(replays) == Addresses(replays[..n]) + if replays[n].ip.Some? then {replays[n].ip.value} else {}
  {
    var n := |replays| - 1;
    assert replays == replays[..n] + [replays[n]];
  }

  /** Appending a new address to the recent ones and keeping the last ten. */
  lemma LastOnesKeeps(recent: seq<string>, ip: string)
    requires NoDuplicates(recent) && ip !in recent && |recent| <= RECENT_REPLAY_IP_LIMIT
    ensures var kept := LastOnes(recent + [ip]);
            && NoDuplicates(kept) && |kept| <= RECENT_REPLAY_IP_LIMIT && |kept| <= |recent| + 1
            && Members(kept) <= Members(recent) + {ip}
            && (|recent| < RECENT_REPLAY_IP_LIMIT ==> Members(kept) == Members(recent) + {ip})
  {
  }

  /** The detail is rewritten as its summary says. */
  lemma DetailFollowsSummary(before: Option<Detail>, r: Replay, window: int)
    ensures Replays in ReplayDetail(before, r, window)
    ensures SummaryOf(ReplayDetail(before, r, window))
         == NextSummary(SummaryOf(if before.Some? then before.value else map[]), r)
  {
    var s := SummaryOf(if before.Some? then before.value else map[]);
    var next := NextSummary(s, r);
    var after := ReplayDetail(before, r, window);
    assert after[RecentIps] == JList(AsJson(next.recent));
    StringsRoundTrip(next.recent);
    assert RecentIpAddresses(after) == next.recent;
    assert after[DistinctIps] == JInt(next.distinct);
    assert DistinctIpCount(after, next.recent) == next.distinct;
    assert after[Replays] == JInt(next.count);
  }

  lemma NextReplayTells(s: Summary, before: seq<Replay>, r: Replay)
    requires Tells(s, before)
    ensures Tells(NextSummary(s, r), before + [r])
  {
    assert (before + [r])[..|before|] == before;
    AddressesSnoc(before + [r]);
    if r.ip.Some? && r.ip.value !in s.recent {
      NoDuplicatesCount(s.recent);
      LastOnesKeeps(s.recent, r.ip.value);
      NewAddressCounts(s.recent, Addresses(before), r.ip.value);
    } else {
      assert r.ip.Some? ==> r.ip.value in Members(s.recent);
      assert Addresses(before + [r]) == Addresses(before);
    }
  }

  /** While at most ten addresses occurred, an address that is not recent is new. */
  lemma NewAddressCounts(recent: seq<string>, seen: set<string>, ip: string)
    requires ip !in recent && |Members(recent)| == |recent| && Members(recent) <= seen
    requires |seen| <= RECENT_REPLAY_IP_LIMIT ==> Members(recent) == seen
    ensures |seen + {ip}| <= |seen| + 1
    ensures |seen + {ip}| <= RECENT_REPLAY_IP_LIMIT ==> |seen + {ip}| == |seen| + 1 && |recent| < RECENT_REPLAY_IP_LIMIT
  {
    if ip in seen {
      assert seen + {ip} == seen;
    }
  }

  lemma {:induction false} FoldedTells(replays: seq<Replay>, window: int)
    requires replays != []
    ensures Replays in Folded(replays, window) && Tells(SummaryOf(Folded(replays, window)), replays)
  {
    var n := |replays| - 1;
    assert replays == replays[..n] + [replays[n]];
    if n == 0 {
      assert Tells(SummaryOf(map[]), []);
      DetailFollowsSummary(None, replays[0], window);
      NextReplayTells(SummaryOf(map[]), [], replays[0]);
    } else {
      FoldedTells(replays[..n], window);
      DetailFollowsSummary(Some(Folded(replays[..n], window)), replays[n], window);
      NextReplayTells(SummaryOf(Folded(replays[..n], window)), replays[..n], replays[n]);
    }
  }

  // ----- the latest addresses -----

  /** The address is among the last ten of the entries. */
  predicate AmongLatest(entries: seq<string>, ip: string) {
    exists i :: 0 <= i < |entries| && i >= |entries| - 10 && entries[i] == ip
  }

  /** The addresses in the order in which they were entered: each replay's, unless it is among the last ten entries. */
  function Entries(replays: seq<Replay>): seq<string> {
    if replays == [] then []
    else
      var before, last := Entries(replays[..|replays| - 1]), replays[|replays| - 1];
      if last.ip.Some? && !AmongLatest(before, last.ip.value) then before + [last.ip.value] else before
  }

  /** The recent addresses are the last ten entries, in their order, and the distinct count is the number of entries. */
  ghost predicate ShowsLatest(s: Summary, entries: seq<string>) {
    && s.recent == (if |entries| <= 10 then entries else entries[|entries| - 10..])
    && s.distinct == |entries|
  }

  lemma NextShowsLatest(s: Summary, before: seq<Replay>, r: Replay)
    requires ShowsLatest(s, Entries(before))
    ensures ShowsLatest(NextSummary(s, r), Entries(before + [r]))
  {
    var entries := Entries(before);
    assert (before + [r])[..|before|] == before;
    if r.ip.Some? {
      LatestAreRecent(entries, r.ip.value);
      LatestSnoc(entries, s.recent, r.ip.value);
    }
  }

  lemma LatestSnoc(entries: seq<string>, recent: seq<string>, ip: string)
    requires recent == if |entries| <= 10 then entries else entries[|entries| - 10..]
    ensures LastOnes(recent + [ip])
         == if |entries + [ip]| <= 10 then entries + [ip] else (entries + [ip])[|entries + [ip]| - 10..]
  {
  }

  lemma LatestAreRecent(entries: seq<string>, ip: string)
    ensures AmongLatest(entries, ip) <==> ip in if |entries| <= 10 then entries else entries[|entries| - 10..]
  {
    var recent := if |entries| <= 10 then entries else entries[|entries| - 10..];
    var skipped := |entries| - |recent|;
    assert forall i :: 0 <= i < |recent| ==> recent[i] == entries[skipped + i];
    if AmongLatest(entries, ip) {
      var i :| 0 <= i < |entries| && i >= |entries| - 10 && entries[i] == ip;
      assert recent[i - skipped] == ip;
    }
  }

  /** What a detail says of its latest replay: address, user agent, time and window. */
  predicate DescribesLatest(d: Detail, r: Replay, window: int) {
    && LastIp in d && d[LastIp] == (if r.ip.Some? then JString(r.ip.value) else JNull)
    && LastUserAgent in d && d[LastUserAgent] == (if r.userAgent.Some? then JString(r.userAgent.value) else JNull)
    && LastReplayedAt in d && d[LastReplayedAt] == JTime(r.at)
    && WindowSeconds in d && d[WindowSeconds] == JInt(window)
  }

  /** The fold shows the latest addresses and describes the latest replay. */
  lemma {:induction false} FoldedShowsLatest(replays: seq<Replay>, window: int)
    requires replays != []
    ensures ShowsLatest(SummaryOf(Folded(replays, window)), Entries(replays))
    ensures DescribesLatest(Folded(replays, window), replays[|replays| - 1], window)
  {
    var n := |replays| - 1;
    assert replays == replays[..n] + [replays[n]];
    if n == 0 {
      DetailFollowsSummary(None, replays[0], window);
      NextShowsLatest(SummaryOf(map[]), [], replays[0]);
    } else {
      FoldedShowsLatest(replays[..n], window);
      DetailFollowsSummary(Some(Folded(replays[..n], window)), replays[n], window);
      NextShowsLatest(SummaryOf(Folded(replays[..n], window)), replays[..n], replays[n]);
    }
  }

  // ----- the table -----

  predicate IsReplayRow(row: Row) {
    row.event == SessionRejected && row.detail.Some? && Replays in row.detail.value
  }

  predicate InWindow(row: Row, session: nat, from: int) {
    row.session == session && IsReplayRow(row) && row.occurredAt >= from
  }

  /** The row stored last among those in the window; it is the one the query asks for (see QueryFindsLatest). */
  function FindRow(rows: seq<Row>, session: nat, from: int): (found: Option<nat>)
    ensures found.Some? ==> found.value < |rows| && InWindow(rows[found.value], session, from)
    ensures found.Some? ==> forall i :: found.value < i < |rows| ==> !InWindow(rows[i], session, from)
    ensures found == None ==> forall i :: 0 <= i < |rows| ==> !InWindow(rows[i], session, from)
  {
    if rows == [] then None
    else if InWindow(rows[|rows| - 1], session, from) then Some(|rows| - 1)
    else FindRow(rows[..|rows| - 1], session, from)
  }

  function WindowStart(at: int, windowSeconds: nat): int {
    Millis(at - windowSeconds * 1_000_000)
  }

  /** `folded` (the replays behind each row) and `locked` (all that got the lock) are history only. */
  datatype World = World(rows: seq<Row>, folded: seq<seq<Replay>>, locked: seq<Replay>)

  datatype Step = Rejected(replay: Replay, lockObtained: bool) | OtherAudit(row: Row)

  const Empty := World([], [], [])

  /**
   Other audit rows carry no replay count.  Replays take their turns in any order, whatever their times: each time
   is read before the lock is asked for.
   */
  predicate Enabled(step: Step) {
    step.OtherAudit? ==> !IsReplayRow(step.row)
  }

  function Recorded(rows: seq<Row>, r: Replay, window: nat): seq<Row> {
    match FindRow(rows, r.session, WindowStart(r.at, window))
    case None => rows + [Row(r.session, SessionRejected, Millis(r.at), Some(ReplayDetail(None, r, window)))]
    case Some(i) => rows[i := rows[i].(detail := Some(ReplayDetail(rows[i].detail, r, window)))]
  }

  function RecordedHistory(w: World, r: Replay, window: nat): seq<seq<Replay>>
    requires |w.folded| == |w.rows|
  {
    match FindRow(w.rows, r.session, WindowStart(r.at, window))
    case None => w.folded + [[r]]
    case Some(i) => w.folded[i := w.folded[i] + [r]]
  }

  function Do(w: World, step: Step, window: nat): World
    requires |w.folded| == |w.rows|
  {
    if !Enabled(step) then w
    else
      match step
      case OtherAudit(row) => w.(rows := w.rows + [row], folded := w.folded + [[]])
      case Rejected(r, lockObtained) =>
        if !lockObtained then w
        else World(Recorded(w.rows, r, window), RecordedHistory(w, r, window), w.locked + [r])
  }

  function RunFrom(w: World, steps: seq<Step>, window: nat): (after: World)
    requires |w.folded| == |w.rows|
    ensures |after.folded| == |after.rows|
    decreases |steps|
  {
    if steps == [] then w else RunFrom(Do(w, steps[0], window), steps[1..], window)
  }

  ghost predicate Consistent(w: World, window: nat) {
    && |w.folded| == |w.rows|
    && (forall i :: 0 <= i < |w.rows| && IsReplayRow(w.rows[i]) ==> RowOk(w.rows[i], w.folded[i], window))
    && (forall i :: 0 <= i < |w.rows| && !IsReplayRow(w.rows[i]) ==> w.folded[i] == [])
    && Apart(w.rows, window)
    && (forall session :: Sum(w.folded, session) == Count(w.locked, session))
  }

  /** A replay row was written by the first of its replays and folds all of them. */
  ghost predicate RowOk(row: Row, replays: seq<Replay>, window: nat) {
    && replays != [] && row.detail == Some(Folded(replays, window)) && row.occurredAt == Millis(replays[0].at)
    && (forall r :: r in replays ==> r.session == row.session && Millis(r.at) - row.occurredAt <= window * 1000)
  }

  /** Replay rows of one session are more than the window apart. */
  ghost predicate Apart(rows: seq<Row>, window: nat) {
    forall i, j :: 0 <= i < j < |rows| && IsReplayRow(rows[i]) && IsReplayRow(rows[j]) && rows[i].session == rows[j].session
      ==> rows[j].occurredAt - rows[i].occurredAt > window * 1000
  }

  function Count(replays: seq<Replay>, session: nat): nat {
    if replays == [] then 0
    else Count(replays[..|replays| - 1], session) + if replays[|replays| - 1].session == session then 1 else 0
  }

  function Sum(folded: seq<seq<Replay>>, session: nat): nat {
    if folded == [] then 0 else Sum(folded[..|folded| - 1], session) + Count(folded[|folded| - 1], session)
  }

  lemma CountSnoc(replays: seq<Replay>, r: Replay, session: nat)
    ensures Count(replays + [r], session) == Count(replays, session) + if r.session == session then 1 else 0
  {
    assert (replays + [r])[..|replays|] == replays;
  }

  lemma SumSnoc(folded: seq<seq<Replay>>, last: seq<Replay>, session: nat)
    ensures Sum(folded + [last], session) == Sum(folded, session) + Count(last, session)
  {
    assert (folded + [last])[..|folded|] == folded;
  }

  /** Replacing one list of replays by another changes the sum by the difference of their counts. */
  lemma {:induction false} SumReplaced(folded: seq<seq<Replay>>, i: nat, replays: seq<Replay>, session: nat)
    requires i < |folded|
    ensures Sum(folded[i := replays], session) + Count(folded[i], session)
         == Sum(folded, session) + Count(replays, session)
  {
    var n := |folded| - 1;
    var after := folded[i := replays];
    if i == n {
      assert after[..n] == folded[..n];
    } else {
      SumReplaced(folded[..n], i, replays, session);
      assert after[..n] == folded[..n][i := replays];
    }
  }

  lemma SumUpdate(folded: seq<seq<Replay>>, i: nat, r: Replay, session: nat)
    requires i < |folded|
    ensures Sum(folded[i := folded[i] + [r]], session) == Sum(folded, session) + if r.session == session then 1 else 0
  {
    CountSnoc(folded[i], r, session);
    SumReplaced(folded, i, folded[i] + [r], session);
  }

  /** What ORDER BY occurred_at DESC LIMIT 1 asks for among the rows in the window. */
  ghost predicate IsLatest(rows: seq<Row>, session: nat, from: int, i: nat) {
    && i < |rows| && InWindow(rows[i], session, from)
    && (forall j :: 0 <= j < |rows| && j != i && InWindow(rows[j], session, from) ==>
          rows[j].occurredAt < rows[i].occurredAt)
  }

  lemma LastStoredIsLatest(rows: seq<Row>, session: nat, from: int, window: nat)
    requires Apart(rows, window) && FindRow(rows, session, from).Some?
    ensures IsLatest(rows, session, from, FindRow(rows, session, from).value)
  {
  }

  lemma WindowStartIs(at: int, window: nat)
    ensures WindowStart(at, window) == Millis(at) - window * 1000
  {
  }

  lemma NewRowKeepsApart(w: World, r: Replay, window: nat)
    requires Consistent(w, window)
    requires FindRow(w.rows, r.session, WindowStart(r.at, window)) == None
    ensures Apart(Recorded(w.rows, r, window), window)
  {
    WindowStartIs(r.at, window);
    forall i | 0 <= i < |w.rows| && IsReplayRow(w.rows[i]) && w.rows[i].session == r.session
      ensures Millis(r.at) - w.rows[i].occurredAt > window * 1000
    {
      assert !InWindow(w.rows[i], r.session, WindowStart(r.at, window));
    }
  }

  lemma UpdatedRowOk(w: World, r: Replay, window: nat, i: nat)
    requires Consistent(w, window)
    requires FindRow(w.rows, r.session, WindowStart(r.at, window)) == Some(i)
    ensures var row := Recorded(w.rows, r, window)[i];
            && IsReplayRow(row) && RowOk(row, w.folded[i] + [r], window)
            && row.occurredAt == w.rows[i].occurredAt && row.session == w.rows[i].session == r.session
  {
    assert RowOk(w.rows[i], w.folded[i], window);
    WindowStartIs(r.at, window);
    assert (w.folded[i] + [r])[..|w.folded[i]|] == w.folded[i];
    FoldedTells(w.folded[i] + [r], window);
  }

  lemma AppendedIsConsistent(w: World, r: Replay, window: nat)
    requires Consistent(w, window)
    requires FindRow(w.rows, r.session, WindowStart(r.at, window)) == None
    ensures Consistent(Do(w, Rejected(r, true), window), window)
  {
    var after := Do(w, Rejected(r, true), window);
    NewRowKeepsApart(w, r, window);
    FirstReplayRow(r, window);
    assert forall i :: 0 <= i < |w.rows| ==> after.rows[i] == w.rows[i] && after.folded[i] == w.folded[i];
    forall session ensures Sum(after.folded, session) == Count(after.locked, session) {
      AppendedSum(w.folded, w.locked, r, session);
    }
  }

  lemma FirstReplayRow(r: Replay, window: nat)
    ensures var row := Row(r.session, SessionRejected, Millis(r.at), Some(ReplayDetail(None, r, window)));
            IsReplayRow(row) && RowOk(row, [r], window)
  {
    DetailFollowsSummary(None, r, window);
  }

  lemma AppendedSum(folded: seq<seq<Replay>>, locked: seq<Replay>, r: Replay, session: nat)
    requires Sum(folded, session) == Count(locked, session)
    ensures Sum(folded + [[r]], session) == Count(locked + [r], session)
  {
    SumSnoc(folded, [r], session);
    CountSnoc(locked, r, session);
    CountSnoc([], r, session);
    assert [] + [r] == [r];
  }

  lemma UpdateKeepsApart(rows: seq<Row>, i: nat, row: Row, window: nat)
    requires Apart(rows, window) && i < |rows| && IsReplayRow(rows[i])
    requires row.session == rows[i].session && row.occurredAt == rows[i].occurredAt
    ensures Apart(rows[i := row], window)
  {
  }

  lemma UpdatedIsConsistent(w: World, r: Replay, window: nat, i: nat)
    requires Consistent(w, window)
    requires FindRow(w.rows, r.session, WindowStart(r.at, window)) == Some(i)
    ensures Consistent(Do(w, Rejected(r, true), window), window)
  {
    var after := Do(w, Rejected(r, true), window);
    UpdatedRowOk(w, r, window, i);
    UpdateKeepsApart(w.rows, i, after.rows[i], window);
    forall session ensures Sum(after.folded, session) == Count(after.locked, session) {
      SumUpdate(w.folded, i, r, session);
      CountSnoc(w.locked, r, session);
    }
  }

  lemma StepIsConsistent(w: World, step: Step, window: nat)
    requires Consistent(w, window)
    ensures Consistent(Do(w, step, window), window)
  {
    if Enabled(step) {
      match step
      case Rejected(r, lockObtained) =>
        if lockObtained {
          match FindRow(w.rows, r.session, WindowStart(r.at, window))
          case None => AppendedIsConsistent(w, r, window);
          case Some(i) => UpdatedIsConsistent(w, r, window, i);
        }
      case OtherAudit(row) =>
        forall session ensures Sum(w.folded + [[]], session) == Count(w.locked, session) {
          SumSnoc(w.folded, [], session);
        }
    }
  }

  lemma {:induction false} RunIsConsistent(w: World, steps: seq<Step>, window: nat)
    requires Consistent(w, window)
    ensures Consistent(RunFrom(w, steps, window), window)
    decreases |steps|
  {
    if steps != [] {
      StepIsConsistent(w, steps[0], window);
      RunIsConsistent(Do(w, steps[0], window), steps[1..], window);
    }
  }

  /** The replay counts of a session's rows, added up. */
  function CountedInRows(rows: seq<Row>, session: nat): int {
    if rows == [] then 0
    else
      var row := rows[|rows| - 1];
      CountedInRows(rows[..|rows| - 1], session)
      + if row.session == session && IsReplayRow(row) then ReplayCount(row.detail.value) else 0
  }

  lemma {:induction false} CountsAreSum(w: World, window: nat, n: nat, session: nat)
    requires Consistent(w, window) && n <= |w.rows|
    ensures CountedInRows(w.rows[..n], session) == Sum(w.folded[..n], session)
  {
    if n > 0 {
      CountsAreSum(w, window, n - 1, session);
      assert w.rows[..n][..n - 1] == w.rows[..n - 1] && w.folded[..n][..n - 1] == w.folded[..n - 1];
      var row, replays := w.rows[n - 1], w.folded[n - 1];
      if IsReplayRow(row) {
        assert RowOk(row, replays, window);
        FoldedTells(replays, window);
        OneSession(replays, row.session, session);
      }
    }
  }

  lemma {:induction false} OneSession(replays: seq<Replay>, owner: nat, session: nat)
    requires forall r :: r in replays ==> r.session == owner
    ensures Count(replays, session) == if owner == session then |replays| else 0
  {
    if replays != [] {
      OneSession(replays[..|replays| - 1], owner, session);
    }
  }

  /** On every run: a session's replay rows are pairwise more than the window apart. */
  lemma RowsAreApart(steps: seq<Step>, window: nat)
    ensures Apart(RunFrom(Empty, steps, window).rows, window)
  {
    RunIsConsistent(Empty, steps, window);
  }

  /** On every run: the row a query finds is the one with the greatest time in the window, and no other has it. */
  lemma QueryFindsLatest(steps: seq<Step>, window: nat, session: nat, from: int)
    ensures var rows := RunFrom(Empty, steps, window).rows;
            match FindRow(rows, session, from)
            case Some(i) => IsLatest(rows, session, from, i)
            case None => forall i :: 0 <= i < |rows| ==> !InWindow(rows[i], session, from)
  {
    RunIsConsistent(Empty, steps, window);
    var rows := RunFrom(Empty, steps, window).rows;
    if FindRow(rows, session, from).Some? {
      LastStoredIsLatest(rows, session, from, window);
    }
  }

  /** On every run: the replay counts of a session's rows add up to its replays that got the lock. */
  lemma CountsAddUp(steps: seq<Step>, window: nat, session: nat)
    ensures var w := RunFrom(Empty, steps, window); CountedInRows(w.rows, session) == Count(w.locked, session)
  {
    RunIsConsistent(Empty, steps, window);
    var w := RunFrom(Empty, steps, window);
    CountsAreSum(w, window, |w.rows|, session);
    assert w.rows[..|w.rows|] == w.rows && w.folded[..|w.rows|] == w.folded;
  }

  /** On every run: each replay row tells the truth about the replays folded into it. */
  lemma RowsTellTheTruth(steps: seq<Step>, window: nat, i: nat)
    requires i < |RunFrom(Empty, steps, window).rows| && IsReplayRow(RunFrom(Empty, steps, window).rows[i])
    ensures var w := RunFrom(Empty, steps, window);
            && Tells(SummaryOf(w.rows[i].detail.value), w.folded[i])
            && ShowsLatest(SummaryOf(w.rows[i].detail.value), Entries(w.folded[i]))
            && w.folded[i] != [] && w.rows[i].occurredAt == Millis(w.folded[i][0].at)
            && (forall r :: r in w.folded[i] ==>
                  r.session == w.rows[i].session && Millis(r.at) - w.rows[i].occurredAt <= window * 1000)
            && DescribesLatest(w.rows[i].detail.value, w.folded[i][|w.folded[i]| - 1], window)
  {
    RunIsConsistent(Empty, steps, window);
    var w := RunFrom(Empty, steps, window);
    assert RowOk(w.rows[i], w.folded[i], window);
    FoldedTells(w.folded[i], window);
    FoldedShowsLatest(w.folded[i], window);
  }

  /** The table itself, with the row update in place. */
  class AuditTable {
    var rows: seq<Row>

    constructor ()
      ensures rows == []
    {
      rows := [];
    }

    method RecordRejectedSessionReplay(r: Replay, lockObtained: bool, window: nat)
      modifies this
      ensures rows == if lockObtained then Recorded(old(rows), r, window) else old(rows)
    {
      if !lockObtained {
        return;
      }
      var found := FindRow(rows, r.session, WindowStart(r.at, window));
      if found == None {
        rows := rows + [Row(r.session, SessionRejected, Millis(r.at), Some(ReplayDetail(None, r, window)))];
      } else {
        var row := rows[found.value];
        rows := rows[found.value := row.(detail := Some(ReplayDetail(row.detail, r, window)))];
      }
    }
  }
}
