/**
 * `compareTracker` in internal/api/compareprogress.go: progress of comparisons
 * in flight, bounded by oldest-first eviction.
 *
 * Every operation runs under the tracker's mutex, so an execution is a
 * sequence of operations. The clock is whatever each operation reads; it may
 * stand still or step back. Times are nanoseconds.
 */
module CompareTracker {
  import opened Text

  const CAPACITY: nat := 64
  const TRACKED_FOR: int := 30_000_000_000

  datatype Progress = Progress(key: string, side: string, phase: string, done: int, total: int)

  datatype Entry = Entry(sides: map<string, Progress>, startedAt: int, updatedAt: int, done: bool)

  type Registry = map<string, Entry>

  datatype Op =
    | Start(token: string, now: int)
    | Report(token: string, progress: Progress, now: int)
    | Finish(token: string, now: int)

  // ---- specification ------------------------------------------------------

  predicate Expired(e: Entry, now: int) {
    e.done && now - e.updatedAt > TRACKED_FOR
  }

  function Unexpired(r: Registry, now: int): Registry {
    map t | t in r && !Expired(r[t], now) :: r[t]
  }

  ghost predicate Submap(a: Registry, b: Registry) {
    forall t :: t in a ==> t in b && a[t] == b[t]
  }

  /** `oldest` are entries of `r`, none started after an entry that stays. */
  ghost predicate OldestGone(r: Registry, left: Registry) {
    && Submap(left, r)
    && forall x, s :: x in r && x !in left && s in left ==> r[x].startedAt <= r[s].startedAt
  }

  /** Which of several equally old entries goes is up to the map's order. */
  ghost predicate Evicts(r: Registry, now: int, left: Registry) {
    var kept := Unexpired(r, now);
    && OldestGone(kept, left)
    && if |kept| < CAPACITY then left == kept else |left| == CAPACITY - 1
  }

  function Fresh(now: int): Entry {
    Entry(map[], now, now, false)
  }

  /** What a report or a finish does to the entry it finds. */
  function Applied(e: Entry, call: Op): Entry {
    match call
    case Start(_, _) => e
    case Report(_, p, now) => e.(sides := e.sides[p.key := p], updatedAt := now)
    case Finish(_, now) => e.(done := true, updatedAt := now)
  }

  ghost predicate Step(r: Registry, op: Op, r': Registry) {
    if op.Start? then
      if op.token == "" then r' == r
      else exists left :: Evicts(r, op.now, left) && r' == left[op.token := Fresh(op.now)]
    else
      r' == if op.token in r then r[op.token := Applied(r[op.token], op)] else r
  }

  // ---- the code -----------------------------------------------------------

  class Tracker {
    var entries: Registry

    ghost predicate Valid()
      reads this
    {
      "" !in entries && |entries| <= CAPACITY
    }

    constructor ()
      ensures Valid() && entries == map[]
    {
      entries := map[];
    }

    /** The reporter is the token it closes over, or None for a nil function. */
    method Start(token: string, now: int) returns (reporter: Option<string>)
      requires Valid()
      modifies this
      ensures Valid()
      ensures reporter == if token == "" then None else Some(token)
      ensures Step(old(entries), Op.Start(token, now), entries)
    {
      if token == "" {
        return None;
      }
      EvictLocked(now);
      ghost var left := entries;
      entries := entries[token := Fresh(now)];
      SizeAfterInsert(left, token, Fresh(now));
      reporter := Some(token);
    }

    /** One call of the reporter `Start` returned for `token`. */
    method Report(token: string, p: Progress, now: int)
      requires Valid()
      modifies this
      ensures Valid()
      ensures Step(old(entries), Op.Report(token, p, now), entries)
    {
      if token in entries {
        var entry := entries[token];
        SizeAfterUpdate(entries, token, entry.(sides := entry.sides[p.key := p], updatedAt := now));
        entries := entries[token := entry.(sides := entry.sides[p.key := p], updatedAt := now)];
      }
    }

    method Finish(token: string, now: int)
      requires Valid()
      modifies this
      ensures Valid()
      ensures Step(old(entries), Op.Finish(token, now), entries)
    {
      if token == "" {
        return;
      }
      if token in entries {
        SizeAfterUpdate(entries, token, entries[token].(done := true, updatedAt := now));
        entries := entries[token := entries[token].(done := true, updatedAt := now)];
      }
    }

    /** A copy of the entry, side by side. */
    method Read(token: string) returns (r: Option<Entry>)
      ensures r == if token in entries then Some(entries[token]) else None
    {
      if token !in entries {
        return None;
      }
      var entry := entries[token];
      var sides: map<string, Progress> := map[];
      var todo := entry.sides.Keys;
      while todo != {}
        invariant todo <= entry.sides.Keys
        invariant sides == map k | k in entry.sides && k !in todo :: entry.sides[k]
        decreases todo
      {
        var k :| k in todo;
        sides := sides[k := entry.sides[k]];
        todo := todo - {k};
      }
      assert sides == entry.sides;
      r := Some(Entry(sides, entry.startedAt, entry.updatedAt, entry.done));
    }

    /** No entry has the empty token, so every round finds an oldest and deletes it. */
    method EvictLocked(now: int)
      requires "" !in entries
      modifies this
      ensures Evicts(old(entries), now, entries)
    {
      DropExpired(now);
      ghost var kept := entries;
      while |entries| >= CAPACITY
        invariant OldestGone(kept, entries)
        invariant |kept| < CAPACITY ==> entries == kept
        invariant |kept| >= CAPACITY ==> |entries| >= CAPACITY - 1
        decreases |entries|
      {
        var oldest := Oldest();
        if oldest == "" {
          assert false;
          return;
        }
        ghost var before := entries;
        entries := entries - {oldest};
        assert entries.Keys == before.Keys - {oldest};
        assert |entries| == |before| - 1;
      }
    }

    method DropExpired(now: int)
      modifies this
      ensures entries == Unexpired(old(entries), now)
    {
      var todo := entries.Keys;
      while todo != {}
        invariant todo <= entries.Keys
        invariant entries == map t | t in old(entries) && (t in todo || !Expired(old(entries)[t], now)) :: old(entries)[t]
        decreases todo
      {
        var token :| token in todo;
        todo := todo - {token};
        if entries[token].done && now - entries[token].updatedAt > TRACKED_FOR {
          entries := entries - {token};
        }
      }
    }

    /** The scan for the earliest start; "" stands for none found yet. */
    method Oldest() returns (oldest: string)
      requires "" !in entries
      ensures entries == map[] <==> oldest == ""
      ensures oldest != "" ==> oldest in entries
      ensures oldest != "" ==> forall t :: t in entries ==> entries[oldest].startedAt <= entries[t].startedAt
    {
      oldest := "";
      var at := 0;
      var todo := entries.Keys;
      while todo != {}
        invariant todo <= entries.Keys
        invariant oldest == "" ==> todo == entries.Keys
        invariant oldest != "" ==> oldest in entries && at == entries[oldest].startedAt
        invariant oldest != "" ==> forall t :: t in entries && t !in todo ==> at <= entries[t].startedAt
        decreases todo
      {
        var token :| token in todo;
        todo := todo - {token};
        if oldest == "" || entries[token].startedAt < at {
          oldest, at := token, entries[token].startedAt;
        }
      }
    }
  }

  lemma SizeAfterInsert(r: Registry, token: string, e: Entry)
    ensures |r[token := e]| <= |r| + 1
  {
    assert r[token := e].Keys == r.Keys + {token};
    assert |r.Keys + {token}| <= |r.Keys| + 1;
  }

  lemma SizeAfterUpdate(r: Registry, token: string, e: Entry)
    requires token in r
    ensures |r[token := e]| == |r|
  {
    assert r[token := e].Keys == r.Keys;
  }

  // ---- every run ----------------------------------------------------------

  ghost predicate IsRun(ops: seq<Op>, states: seq<Registry>) {
    && |states| == |ops| + 1
    && states[0] == map[]
    && forall i :: 0 <= i < |ops| ==> Step(states[i], ops[i], states[i + 1])
  }

  lemma EvictsFacts(r: Registry, now: int, left: Registry)
    requires Evicts(r, now, left)
    ensures |left| < CAPACITY && Submap(left, r)
  {
  }

  lemma StepKeepsBound(r: Registry, op: Op, r': Registry)
    requires Step(r, op, r') && "" !in r && |r| <= CAPACITY
    ensures "" !in r' && |r'| <= CAPACITY
  {
    match op
    case Start(token, now) =>
      if token != "" {
        var left :| Evicts(r, now, left) && r' == left[token := Fresh(now)];
        EvictsFacts(r, now, left);
        SizeAfterInsert(left, token, Fresh(now));
      }
    case Report(token, p, now) =>
      if token in r { SizeAfterUpdate(r, token, r'[token]); }
    case Finish(token, now) =>
      if token in r { SizeAfterUpdate(r, token, r'[token]); }
  }

  /** At most 64 entries, and never one with the empty token, in every reachable state. */
  lemma {:induction false} Bounded(ops: seq<Op>, states: seq<Registry>, i: nat)
    requires IsRun(ops, states) && i <= |ops|
    ensures "" !in states[i] && |states[i]| <= 64
  {
    if i > 0 {
      Bounded(ops, states, i - 1);
      assert Step(states[i - 1], ops[i - 1], states[i]);
      StepKeepsBound(states[i - 1], ops[i - 1], states[i]);
    }
  }

  predicate Starts(op: Op, token: string) {
    op.Start? && op.token == token
  }

  lemma StepKeepsAbsent(r: Registry, op: Op, r': Registry, token: string)
    requires Step(r, op, r') && !Starts(op, token)
    ensures token in r' ==> token in r && r'[token].startedAt == r[token].startedAt && (r[token].done ==> r'[token].done)
    ensures token in r' ==> r'[token] == if Touches(op, token) then Applied(r[token], op) else r[token]
  {
    if op.Start? && op.token != "" {
      var left :| Evicts(r, op.now, left) && r' == left[op.token := Fresh(op.now)];
      EvictsFacts(r, op.now, left);
    }
  }

  /**
   * A reporter or a finish that arrives late never brings an evicted token
   * back, and nothing but a new start clears Done.
   */
  lemma {:induction false} NoResurrection(ops: seq<Op>, states: seq<Registry>, i: nat, j: nat, token: string)
    requires IsRun(ops, states) && i <= j <= |ops|
    requires forall k :: i <= k < j ==> !Starts(ops[k], token)
    ensures token in states[j] ==> token in states[i]
    ensures token in states[j] ==> states[j][token].startedAt == states[i][token].startedAt
    ensures token in states[j] && states[i][token].done ==> states[j][token].done
    decreases j
  {
    if i < j {
      NoResurrection(ops, states, i, j - 1, token);
      assert Step(states[j - 1], ops[j - 1], states[j]);
      StepKeepsAbsent(states[j - 1], ops[j - 1], states[j], token);
    }
  }

  // ---- a token that is started again --------------------------------------

  /** The last start of `token` before operation j, or -1. */
  function LastStart(ops: seq<Op>, j: nat, token: string): (k: int)
    requires j <= |ops|
    ensures -1 <= k < j
    ensures k >= 0 ==> Starts(ops[k], token)
    ensures forall i :: k < i < j ==> !Starts(ops[i], token)
  {
    if j == 0 then -1
    else if Starts(ops[j - 1], token) then j - 1
    else LastStart(ops, j - 1, token)
  }

  predicate Touches(op: Op, token: string) {
    !op.Start? && op.token == token
  }

  /** An entry after a list of calls. */
  function Replay(e: Entry, calls: seq<Op>): Entry {
    if calls == [] then e else Applied(Replay(e, calls[..|calls| - 1]), calls[|calls| - 1])
  }

  /** The reports and finishes for `token` after operation k and before operation j. */
  function CallsFor(ops: seq<Op>, k: nat, j: nat, token: string): seq<Op>
    requires k < j <= |ops|
  {
    if j == k + 1 then []
    else CallsFor(ops, k, j - 1, token) + if Touches(ops[j - 1], token) then [ops[j - 1]] else []
  }

  /** An entry is what the token's last start made, with every later call for that token replayed on it. */
  lemma {:induction false} EntryIsReplay(ops: seq<Op>, states: seq<Registry>, j: nat, token: string)
    requires IsRun(ops, states) && j <= |ops| && token in states[j]
    ensures var k := LastStart(ops, j, token);
      k >= 0 && states[j][token] == Replay(Fresh(ops[k].now), CallsFor(ops, k, j, token))
    decreases j
  {
    var op, r, r' := ops[j - 1], states[j - 1], states[j];
    assert Step(r, op, r');
    Bounded(ops, states, j);
    if !Starts(op, token) {
      StepKeepsAbsent(r, op, r', token);
      EntryIsReplay(ops, states, j - 1, token);
      var k := LastStart(ops, j, token);
      var before := CallsFor(ops, k, j - 1, token);
      assert before + [] == before;
      assert (before + [op])[..|before|] == before;
    }
  }

  // ---- what an entry says -------------------------------------------------

  predicate Reports(op: Op, token: string, key: string) {
    op.Report? && op.token == token && op.progress.key == key
  }

  /** The last report of a side after operation k and before operation j, or -1. */
  function LastReport(ops: seq<Op>, k: nat, j: nat, token: string, key: string): (i: int)
    requires k < j <= |ops|
    ensures i == -1 || k < i < j
    ensures i >= 0 ==> Reports(ops[i], token, key)
    ensures forall m :: k < m < j && i < m ==> !Reports(ops[m], token, key)
  {
    if j == k + 1 then -1
    else if Reports(ops[j - 1], token, key) then j - 1
    else LastReport(ops, k, j - 1, token, key)
  }

  /** The last report or finish of a token after its start k and before operation j, or that start. */
  function LastCall(ops: seq<Op>, k: nat, j: nat, token: string): (i: nat)
    requires k < j <= |ops|
    ensures k <= i < j && (i > k ==> !ops[i].Start? && ops[i].token == token)
    ensures forall m :: i < m < j ==> ops[m].Start? || ops[m].token != token
  {
    if j == k + 1 then k
    else if !ops[j - 1].Start? && ops[j - 1].token == token then j - 1
    else LastCall(ops, k, j - 1, token)
  }

  /** A side for each key reported, with the last progress reported for it. */
  ghost predicate SidesAreLastReports(ops: seq<Op>, k: nat, j: nat, token: string, e: Entry)
    requires k < j <= |ops|
  {
    forall key ::
      var i := LastReport(ops, k, j, token, key);
      if i < 0 then key !in e.sides else key in e.sides && e.sides[key] == ops[i].progress
  }

  ghost predicate Finished(ops: seq<Op>, k: nat, j: nat, token: string)
    requires k < j <= |ops|
  {
    exists i :: k < i < j && ops[i].Finish? && ops[i].token == token
  }

  /** What the calls since start k, up to operation j, amount to. */
  ghost predicate Says(ops: seq<Op>, k: nat, j: nat, token: string, e: Entry)
    requires k < j <= |ops|
  {
    && SidesAreLastReports(ops, k, j, token, e)
    && (e.done <==> Finished(ops, k, j, token))
    && e.startedAt == ops[k].now
    && e.updatedAt == ops[LastCall(ops, k, j, token)].now
  }

  lemma SidesNext(ops: seq<Op>, k: nat, j: nat, token: string, e: Entry)
    requires k < j < |ops| && SidesAreLastReports(ops, k, j, token, e)
    ensures SidesAreLastReports(ops, k, j + 1, token, if Touches(ops[j], token) then Applied(e, ops[j]) else e)
  {
    var op := ops[j];
    var e' := if Touches(op, token) then Applied(e, op) else e;
    forall key
      ensures var i := LastReport(ops, k, j + 1, token, key);
        if i < 0 then key !in e'.sides else key in e'.sides && e'.sides[key] == ops[i].progress
    {
      var i := LastReport(ops, k, j, token, key);
      assert if i < 0 then key !in e.sides else key in e.sides && e.sides[key] == ops[i].progress;
      assert LastReport(ops, k, j + 1, token, key) == if Reports(op, token, key) then j else i;
    }
  }

  lemma FinishedNext(ops: seq<Op>, k: nat, j: nat, token: string)
    requires k < j < |ops|
    ensures Finished(ops, k, j + 1, token) <==> Finished(ops, k, j, token) || (ops[j].Finish? && ops[j].token == token)
  {
  }

  lemma SaysNext(ops: seq<Op>, k: nat, j: nat, token: string, e: Entry)
    requires k < j < |ops| && Says(ops, k, j, token, e)
    ensures Says(ops, k, j + 1, token, if Touches(ops[j], token) then Applied(e, ops[j]) else e)
  {
    SidesNext(ops, k, j, token, e);
    FinishedNext(ops, k, j, token);
    hide SidesAreLastReports, Finished;
  }

  lemma SaysNothing(ops: seq<Op>, k: nat, token: string)
    requires k < |ops|
    ensures Says(ops, k, k + 1, token, Fresh(ops[k].now))
  {
  }

  /**
   * In every reachable state an entry has a side exactly for each key reported
   * since its token's last start, with the last progress reported for it; it is
   * done exactly if it was finished since, and its times are those of the start
   * and of the last call.
   */
  lemma {:induction false} EntrySays(ops: seq<Op>, states: seq<Registry>, j: nat, token: string)
    requires IsRun(ops, states) && j <= |ops| && token in states[j]
    ensures var k := LastStart(ops, j, token);
      k >= 0 && Says(ops, k, j, token, states[j][token])
    decreases j
  {
    EntryIsReplay(ops, states, j, token);
    var k := LastStart(ops, j, token);
    if k == j - 1 {
      SaysNothing(ops, k, token);
    } else {
      assert Step(states[j - 1], ops[j - 1], states[j]);
      hide Says, Step, IsRun, Applied, Touches;
      StepKeepsAbsent(states[j - 1], ops[j - 1], states[j], token);
      EntrySays(ops, states, j - 1, token);
      SaysNext(ops, k, j - 1, token, states[j - 1][token]);
    }
  }

  // ---- whose calls an entry shows -----------------------------------------

  /**
   * `from[i]` is the start that call i belongs to: a reporter is what that
   * start returned, and its finish is deferred with the token it was given.
   */
  ghost predicate Belong(ops: seq<Op>, from: seq<nat>) {
    && |from| == |ops|
    && forall i :: 0 <= i < |ops| && !ops[i].Start? ==> from[i] < i && Starts(ops[from[i]], ops[i].token)
  }

  /** The calls of start k before operation j. */
  function CallsOf(ops: seq<Op>, from: seq<nat>, k: nat, j: nat): seq<Op>
    requires k < j <= |ops| == |from|
  {
    if j == k + 1 then []
    else CallsOf(ops, from, k, j - 1) + if !ops[j - 1].Start? && from[j - 1] == k then [ops[j - 1]] else []
  }

  /** The entry of `token` before operation j shows the calls of the comparison that made it, and no others. */
  ghost predicate ShowsItsOwn(ops: seq<Op>, states: seq<Registry>, from: seq<nat>, j: nat, token: string)
    requires j <= |ops| == |from| && j < |states| && token in states[j]
  {
    var k := LastStart(ops, j, token);
    k >= 0 && states[j][token] == Replay(Fresh(ops[k].now), CallsOf(ops, from, k, j))
  }

  ghost predicate AllShowTheirOwn(ops: seq<Op>, states: seq<Registry>, from: seq<nat>)
    requires |ops| == |from| && |states| == |ops| + 1
  {
    forall j, token :: 0 <= j <= |ops| && token in states[j] ==> ShowsItsOwn(ops, states, from, j, token)
  }

  /** A call that finds an entry its own start did not make. */
  predicate Late(ops: seq<Op>, states: seq<Registry>, from: seq<nat>, i: nat)
    requires i < |ops| == |from| && i < |states|
  {
    !ops[i].Start? && ops[i].token in states[i] && from[i] != LastStart(ops, i, ops[i].token)
  }

  /** A late call that would change nothing: the side, or Done, and the time are those already there. */
  ghost predicate LateCallsChangeNothing(ops: seq<Op>, states: seq<Registry>, from: seq<nat>)
    requires |ops| == |from| && |states| == |ops| + 1
  {
    forall i :: 0 <= i < |ops| && Late(ops, states, from, i) ==>
      Applied(states[i][ops[i].token], ops[i]) == states[i][ops[i].token]
  }

  /** One operation later an entry that is still there has the next call of its own, or none. */
  lemma OwnStep(ops: seq<Op>, states: seq<Registry>, from: seq<nat>, j: nat, token: string)
    requires IsRun(ops, states) && Belong(ops, from) && j < |ops|
    requires token in states[j + 1] && !Starts(ops[j], token)
    ensures token in states[j]
    ensures states[j + 1][token] ==
      if Touches(ops[j], token) then Applied(states[j][token], ops[j]) else states[j][token]
    ensures var k := LastStart(ops, j, token);
      && k == LastStart(ops, j + 1, token) && k >= 0
      && Replay(Fresh(ops[k].now), CallsOf(ops, from, k, j + 1)) ==
        var e := Replay(Fresh(ops[k].now), CallsOf(ops, from, k, j));
        if Touches(ops[j], token) && !Late(ops, states, from, j) then Applied(e, ops[j]) else e
  {
    assert Step(states[j], ops[j], states[j + 1]);
    StepKeepsAbsent(states[j], ops[j], states[j + 1], token);
    Bounded(ops, states, j);
    EntryIsReplay(ops, states, j, token);
    var k := LastStart(ops, j, token);
    var own := CallsOf(ops, from, k, j);
    assert own + [] == own;
    assert (own + [ops[j]])[..|own|] == own;
    if !ops[j].Start? && from[j] == k {
      assert Starts(ops[k], token) && Starts(ops[k], ops[j].token);
    }
  }

  lemma OwnAtStart(ops: seq<Op>, states: seq<Registry>, from: seq<nat>, j: nat, token: string)
    requires IsRun(ops, states) && |from| == |ops|
    requires 0 < j <= |ops| && token in states[j] && Starts(ops[j - 1], token)
    ensures ShowsItsOwn(ops, states, from, j, token)
  {
    EntryIsReplay(ops, states, j, token);
  }

  lemma HarmlessStep(ops: seq<Op>, states: seq<Registry>, from: seq<nat>, j: nat, token: string)
    requires IsRun(ops, states) && Belong(ops, from) && LateCallsChangeNothing(ops, states, from)
    requires j < |ops| && token in states[j + 1] && !Starts(ops[j], token)
    ensures token in states[j]
    ensures ShowsItsOwn(ops, states, from, j, token) ==> ShowsItsOwn(ops, states, from, j + 1, token)
  {
    OwnStep(ops, states, from, j, token);
    hide IsRun, Belong, Applied, CallsOf, Replay, LastStart, Starts;
  }

  lemma {:induction false} OwnWhenHarmless(
    ops: seq<Op>, states: seq<Registry>, from: seq<nat>, j: nat, token: string)
    requires IsRun(ops, states) && Belong(ops, from) && LateCallsChangeNothing(ops, states, from)
    requires j <= |ops| && token in states[j]
    ensures ShowsItsOwn(ops, states, from, j, token)
    decreases j
  {
    hide Step, LateCallsChangeNothing, ShowsItsOwn, Starts;
    if j > 0 {
      if Starts(ops[j - 1], token) {
        OwnAtStart(ops, states, from, j, token);
      } else {
        HarmlessStep(ops, states, from, j - 1, token);
        OwnWhenHarmless(ops, states, from, j - 1, token);
      }
    }
  }

  /**
   * Lookup is by token alone, so a call can land in the entry of a later
   * comparison. In every run, all entries show their own comparison's calls
   * exactly when no such call changes the entry it finds.
   */
  lemma EntriesShowTheirOwn(ops: seq<Op>, states: seq<Registry>, from: seq<nat>)
    requires IsRun(ops, states) && Belong(ops, from)
    ensures AllShowTheirOwn(ops, states, from) <==> LateCallsChangeNothing(ops, states, from)
  {
    if AllShowTheirOwn(ops, states, from) {
      forall i | 0 <= i < |ops| && Late(ops, states, from, i)
        ensures Applied(states[i][ops[i].token], ops[i]) == states[i][ops[i].token]
      {
        assert Step(states[i], ops[i], states[i + 1]);
        OwnStep(ops, states, from, i, ops[i].token);
        assert ShowsItsOwn(ops, states, from, i, ops[i].token);
        assert ShowsItsOwn(ops, states, from, i + 1, ops[i].token);
      }
    }
    if LateCallsChangeNothing(ops, states, from) {
      forall j, token | 0 <= j <= |ops| && token in states[j] ensures ShowsItsOwn(ops, states, from, j, token) {
        OwnWhenHarmless(ops, states, from, j, token);
      }
    }
  }

  ghost predicate ClockAdvances(ops: seq<Op>) {
    forall i, j :: 0 <= i < j < |ops| ==> ops[i].now < ops[j].now
  }

  lemma {:induction false} UpdatedBefore(ops: seq<Op>, states: seq<Registry>, j: nat, token: string)
    requires IsRun(ops, states) && ClockAdvances(ops) && j <= |ops| && token in states[j]
    ensures j > 0 && states[j][token].updatedAt <= ops[j - 1].now
    decreases j
  {
    var op, r, r' := ops[j - 1], states[j - 1], states[j];
    assert Step(r, op, r');
    Bounded(ops, states, j);
    if !Starts(op, token) {
      StepKeepsAbsent(r, op, r', token);
      UpdatedBefore(ops, states, j - 1, token);
    }
  }

  /** While the clock advances a late call always shows, so the condition is that there is none. */
  lemma OwnWhenClockAdvances(ops: seq<Op>, states: seq<Registry>, from: seq<nat>)
    requires IsRun(ops, states) && Belong(ops, from) && ClockAdvances(ops)
    ensures AllShowTheirOwn(ops, states, from) <==> forall i :: 0 <= i < |ops| ==> !Late(ops, states, from, i)
  {
    EntriesShowTheirOwn(ops, states, from);
    forall i | 0 <= i < |ops| && Late(ops, states, from, i)
      ensures Applied(states[i][ops[i].token], ops[i]) != states[i][ops[i].token]
    {
      UpdatedBefore(ops, states, i, ops[i].token);
    }
  }

  /** Tokens that are never started twice are enough, whatever the clock does. */
  lemma StartedOnceIsEnough(ops: seq<Op>, states: seq<Registry>, from: seq<nat>)
    requires IsRun(ops, states) && Belong(ops, from)
    requires forall i, j :: 0 <= i < j < |ops| && ops[i].Start? && ops[j].Start? ==> ops[i].token != ops[j].token
    ensures AllShowTheirOwn(ops, states, from)
  {
    forall i | 0 <= i < |ops| ensures !Late(ops, states, from, i) {
      if !ops[i].Start? {
        assert Starts(ops[from[i]], ops[i].token);
      }
    }
    EntriesShowTheirOwn(ops, states, from);
  }

  /** A run in which the finish of a first comparison marks the second, still running, as done. */
  lemma LateFinishWitness(token: string) returns (ops: seq<Op>, states: seq<Registry>, from: seq<nat>)
    requires token != ""
    ensures IsRun(ops, states) && Belong(ops, from)
    ensures ops == [Start(token, 1), Start(token, 2), Finish(token, 3)] && from[2] == 0
    ensures token in states[3] && states[3][token] == Fresh(2).(done := true, updatedAt := 3)
    ensures !ShowsItsOwn(ops, states, from, 3, token)
  {
    ops, from := [Start(token, 1), Start(token, 2), Finish(token, 3)], [0, 0, 0];
    var one, two := map[token := Fresh(1)], map[token := Fresh(2)];
    states := [map[], one, two, map[token := Fresh(2).(done := true, updatedAt := 3)]];
    assert Evicts(map[], 1, map[]) && one == map[][token := Fresh(1)];
    assert Unexpired(one, 2) == one;
    assert Evicts(one, 2, one) && two == one[token := Fresh(2)];
    assert LastStart(ops, 3, token) == 1;
    assert CallsOf(ops, from, 1, 3) == [];
  }

  // ---- how long a running comparison stays visible ------------------------

  /** The other entries started no earlier than `at`. */
  function Newer(r: Registry, token: string, at: int): set<string> {
    set t | t in r && t != token && r[t].startedAt >= at
  }

  function StartsBetween(ops: seq<Op>, i: nat, j: nat): nat
    requires i <= j <= |ops|
    decreases j
  {
    if i == j then 0 else StartsBetween(ops, i, j - 1) + if ops[j - 1].Start? then 1 else 0
  }

  /** An entry that has not expired goes only when 63 others are at least as new. */
  lemma EvictedOnlyWhenOldest(r: Registry, now: int, left: Registry, token: string)
    requires Evicts(r, now, left) && token in r && (r[token].done ==> now - r[token].updatedAt <= 30_000_000_000)
    requires |Newer(r, token, r[token].startedAt)| < CAPACITY - 1
    ensures token in left
  {
    var kept := Unexpired(r, now);
    assert token in kept;
    if token !in left {
      assert left.Keys <= Newer(r, token, r[token].startedAt);
      SubsetSize(left.Keys, Newer(r, token, r[token].startedAt));
    }
  }

  /** At capacity the strictly oldest entry does go. */
  lemma OldestGoesFirst(r: Registry, now: int, left: Registry, token: string)
    requires Evicts(r, now, left) && |Unexpired(r, now)| >= CAPACITY
    requires token in Unexpired(r, now)
    requires forall t :: t in Unexpired(r, now) && t != token ==> r[token].startedAt < r[t].startedAt
    ensures token !in left
  {
    SomeoneGoes(r, now, left);
    var x :| x in Unexpired(r, now) && x !in left;
  }

  lemma SomeoneGoes(r: Registry, now: int, left: Registry)
    requires Evicts(r, now, left) && |Unexpired(r, now)| >= CAPACITY
    ensures exists x :: x in Unexpired(r, now) && x !in left
  {
    if Unexpired(r, now).Keys <= left.Keys {
      SubsetSize(Unexpired(r, now).Keys, left.Keys);
    }
  }

  lemma {:induction false} SubsetSize(a: set<string>, b: set<string>)
    requires a <= b
    ensures |a| <= |b|
  {
    if a != {} {
      var x :| x in a;
      SubsetSize(a - {x}, b - {x});
    }
  }

  lemma NewerGrowsByOne(r: Registry, op: Op, r': Registry, token: string, at: int)
    requires Step(r, op, r')
    ensures |Newer(r', token, at)| <= |Newer(r, token, at)| + if op.Start? then 1 else 0
  {
    if op.Start? && op.token != "" {
      var left :| Evicts(r, op.now, left) && r' == left[op.token := Fresh(op.now)];
      EvictsFacts(r, op.now, left);
      SubsetSize(Newer(r', token, at), Newer(r, token, at) + {op.token});
    } else {
      SubsetSize(Newer(r', token, at), Newer(r, token, at));
    }
  }

  lemma StepKeeps(r: Registry, op: Op, r': Registry, token: string)
    requires Step(r, op, r') && token in r && !Starts(op, token)
    requires op.Start? ==> |Newer(r, token, r[token].startedAt)| < CAPACITY - 1
    requires op.Start? && r[token].done ==> op.now - r[token].updatedAt <= 30_000_000_000
    ensures token in r' && r'[token] == if Touches(op, token) then Applied(r[token], op) else r[token]
  {
    if op.Start? && op.token != "" {
      var left :| Evicts(r, op.now, left) && r' == left[op.token := Fresh(op.now)];
      EvictsFacts(r, op.now, left);
      EvictedOnlyWhenOldest(r, op.now, left, token);
    }
  }

  /**
   * A comparison stays readable as long as the entries newer than it and the
   * starts since make at most 63 together, whatever else is reported, finished
   * or evicted meanwhile, and no start comes more than thirty seconds after a
   * finish of its own.
   */
  lemma {:induction false} StaysReadable(ops: seq<Op>, states: seq<Registry>, i: nat, j: nat, token: string)
    requires IsRun(ops, states) && i <= j <= |ops| && token in states[i]
    requires forall k :: i <= k < j ==> !Starts(ops[k], token)
    requires forall k :: i <= k < j && ops[k].Start? && token in states[k] && states[k][token].done ==>
      ops[k].now - states[k][token].updatedAt <= 30_000_000_000
    requires |Newer(states[i], token, states[i][token].startedAt)| + StartsBetween(ops, i, j) <= 63
    ensures token in states[j] && states[j][token].startedAt == states[i][token].startedAt
    ensures |Newer(states[j], token, states[i][token].startedAt)|
      <= |Newer(states[i], token, states[i][token].startedAt)| + StartsBetween(ops, i, j)
    decreases j
  {
    if i < j {
      StaysReadable(ops, states, i, j - 1, token);
      assert Step(states[j - 1], ops[j - 1], states[j]);
      StepKeeps(states[j - 1], ops[j - 1], states[j], token);
      NewerGrowsByOne(states[j - 1], ops[j - 1], states[j], token, states[i][token].startedAt);
    }
  }

  /** The next start of another token more than thirty seconds after its last call drops a finished one. */
  lemma ExpiredGoes(r: Registry, op: Op, r': Registry, token: string)
    requires Step(r, op, r') && op.Start? && op.token != "" && op.token != token
    requires token in r && r[token].done && op.now - r[token].updatedAt > 30_000_000_000
    ensures token !in r'
  {
    var left :| Evicts(r, op.now, left) && r' == left[op.token := Fresh(op.now)];
  }

  /** A running comparison stays readable and running within those 63. */
  lemma {:induction false} RunningSurvives(ops: seq<Op>, states: seq<Registry>, i: nat, j: nat, token: string)
    requires IsRun(ops, states) && i <= j <= |ops|
    requires token in states[i] && !states[i][token].done
    requires forall k :: i <= k < j ==> !Starts(ops[k], token) && !(ops[k].Finish? && ops[k].token == token)
    requires |Newer(states[i], token, states[i][token].startedAt)| + StartsBetween(ops, i, j) <= 63
    ensures token in states[j] && !states[j][token].done
    ensures states[j][token].startedAt == states[i][token].startedAt
    ensures |Newer(states[j], token, states[i][token].startedAt)|
      <= |Newer(states[i], token, states[i][token].startedAt)| + StartsBetween(ops, i, j)
    decreases j
  {
    if i < j {
      RunningSurvives(ops, states, i, j - 1, token);
      assert Step(states[j - 1], ops[j - 1], states[j]);
      StepKeeps(states[j - 1], ops[j - 1], states[j], token);
      NewerGrowsByOne(states[j - 1], ops[j - 1], states[j], token, states[i][token].startedAt);
    }
  }

  /** With 63 strictly newer entries that have not expired, one more start does evict it. */
  lemma OneMoreStartEvicts(r: Registry, op: Op, r': Registry, token: string, newer: set<string>)
    requires Step(r, op, r') && op.Start? && op.token != "" && op.token != token && token in r
    requires |newer| >= 63
    requires forall t :: t in newer ==>
      t in r && !Expired(r[t], op.now) && r[t].startedAt > r[token].startedAt
    ensures token !in r'
  {
    var left :| Evicts(r, op.now, left) && r' == left[op.token := Fresh(op.now)];
    var kept := Unexpired(r, op.now);
    if token in left {
      assert forall t :: t in newer ==> t in kept && t in left;
      SubsetSize(newer + {token}, left.Keys);
      SubsetSize(left.Keys, kept.Keys);
    }
  }

  // ---- the bound is exact -------------------------------------------------

  /** Starts of tokens that are all different and not empty, on a clock that advances. */
  ghost predicate FreshStarts(ops: seq<Op>) {
    && ClockAdvances(ops)
    && (forall i :: 0 <= i < |ops| ==> ops[i].Start? && ops[i].token != "")
    && forall i, j :: 0 <= i < j < |ops| ==> ops[i].token != ops[j].token
  }

  /** The entries of starts lo to hi. */
  function Started(ops: seq<Op>, lo: nat, hi: nat): Registry
    requires lo <= hi <= |ops|
  {
    if lo == hi then map[] else Started(ops, lo, hi - 1)[ops[hi - 1].token := Fresh(ops[hi - 1].now)]
  }

  lemma FreshPair(ops: seq<Op>, i: nat, j: nat)
    requires FreshStarts(ops) && i < j < |ops|
    ensures ops[i].token != ops[j].token && ops[i].now < ops[j].now
  {
  }

  lemma {:induction false} NotStartedYet(ops: seq<Op>, lo: nat, hi: nat, m: nat)
    requires FreshStarts(ops) && lo <= hi <= m < |ops|
    ensures ops[m].token !in Started(ops, lo, hi)
  {
    if lo < hi {
      hide FreshStarts;
      NotStartedYet(ops, lo, hi - 1, m);
      FreshPair(ops, hi - 1, m);
    }
  }

  lemma {:induction false} StartedFacts(ops: seq<Op>, lo: nat, hi: nat)
    requires FreshStarts(ops) && lo < hi <= |ops|
    ensures var r := Started(ops, lo, hi);
      && |r| == hi - lo
      && ops[lo].token in r && r[ops[lo].token] == Fresh(ops[lo].now)
      && (forall t :: t in r ==> !r[t].done && (t == ops[lo].token || r[t].startedAt > ops[lo].now))
      && r - {ops[lo].token} == Started(ops, lo + 1, hi)
  {
    hide FreshStarts;
    var front, op := Started(ops, lo, hi - 1), ops[hi - 1];
    NotStartedYet(ops, lo, hi - 1, hi - 1);
    assert Started(ops, lo, hi).Keys == front.Keys + {op.token};
    if lo + 1 < hi {
      StartedFacts(ops, lo, hi - 1);
      FreshPair(ops, lo, hi - 1);
      assert Started(ops, lo, hi) - {ops[lo].token} == (front - {ops[lo].token})[op.token := Fresh(op.now)];
    }
  }

  lemma OneGoes(r: Registry, now: int, left: Registry, oldest: string)
    requires Evicts(r, now, left) && Unexpired(r, now) == r && |r| == CAPACITY && oldest in r
    requires forall t :: t in r && t != oldest ==> r[oldest].startedAt < r[t].startedAt
    ensures left == r - {oldest}
  {
    OldestGoesFirst(r, now, left, oldest);
    assert |left| == CAPACITY - 1 && Submap(left, r);
    hide Evicts, Unexpired;
    assert left.Keys <= r.Keys - {oldest};
    SubsetOfSameSize(left.Keys, r.Keys - {oldest});
  }

  lemma SubsetOfSameSize(a: set<string>, b: set<string>)
    requires a <= b && |a| == |b|
    ensures a == b
  {
    if x :| x in b && x !in a {
      SubsetSize(a, b - {x});
    }
  }

  /** The oldest of the starts before j whose entry is still there. */
  function FirstKept(j: nat): (lo: nat)
    ensures lo <= j
  {
    if j <= 64 then 0 else j - 64
  }

  lemma FreshEviction(ops: seq<Op>, j: nat, left: Registry)
    requires FreshStarts(ops) && j < |ops|
    requires Evicts(Started(ops, FirstKept(j), j), ops[j].now, left)
    ensures left == Started(ops, FirstKept(j + 1), j)
  {
    var r := Started(ops, FirstKept(j), j);
    if j > 0 {
      hide FreshStarts, Evicts, Started;
      StartedFacts(ops, FirstKept(j), j);
      assert Unexpired(r, ops[j].now) == r;
      if j >= CAPACITY {
        OneGoes(r, ops[j].now, left, ops[FirstKept(j)].token);
      } else {
        SmallStays(r, ops[j].now, left);
      }
    }
  }

  lemma SmallStays(r: Registry, now: int, left: Registry)
    requires Evicts(r, now, left) && |Unexpired(r, now)| < CAPACITY
    ensures left == Unexpired(r, now)
  {
  }

  lemma FreshStep(ops: seq<Op>, j: nat, r': Registry)
    requires FreshStarts(ops) && j < |ops|
    requires Step(Started(ops, FirstKept(j), j), ops[j], r')
    ensures r' == Started(ops, FirstKept(j + 1), j + 1)
  {
    var op, r := ops[j], Started(ops, FirstKept(j), j);
    assert op.Start? && op.token != "";
    hide FreshStarts, Started, FirstKept, Evicts;
    var left :| Evicts(r, op.now, left) && r' == left[op.token := Fresh(op.now)];
    FreshEviction(ops, j, left);
    StartedOneMore(ops, FirstKept(j + 1), j);
  }

  lemma StartedOneMore(ops: seq<Op>, lo: nat, hi: nat)
    requires lo <= hi < |ops|
    ensures Started(ops, lo, hi + 1) == Started(ops, lo, hi)[ops[hi].token := Fresh(ops[hi].now)]
  {
  }

  lemma StartedNone(ops: seq<Op>)
    ensures FirstKept(0) == 0 && Started(ops, 0, 0) == map[]
  {
  }

  lemma RunFacts(ops: seq<Op>, states: seq<Registry>)
    requires IsRun(ops, states)
    ensures |states| == |ops| + 1 && states[0] == map[]
    ensures forall i :: 0 <= i < |ops| ==> Step(states[i], ops[i], states[i + 1])
  {
  }

  /** After any number of such starts the entries are exactly those of the last 64. */
  lemma {:induction false} LatestStay(ops: seq<Op>, states: seq<Registry>, j: nat)
    requires IsRun(ops, states) && FreshStarts(ops) && j <= |ops|
    ensures states[j] == Started(ops, FirstKept(j), j)
    decreases j
  {
    hide *;
    RunFacts(ops, states);
    if j > 0 {
      LatestStay(ops, states, j - 1);
      FreshStep(ops, j - 1, states[j - 1 + 1]);
    } else {
      StartedNone(ops);
    }
  }
}
