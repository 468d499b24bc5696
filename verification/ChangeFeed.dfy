/**
 * `watchTransfers` in internal/api/events.go: the poller that turns successive
 * snapshots of the live transfers into hints.
 *
 * What the ticker, the subscriber count and the query deliver is arbitrary: a
 * run is any sequence of ticks.
 */
module ChangeFeed {
  import opened Text
  import opened Sequences
  import EventHub

  datatype TransferVersion = TransferVersion(id: string, updatedAt: string)

  datatype Query = Rows(live: seq<TransferVersion>) | Failed

  datatype Tick = Tick(subscribers: nat, query: Query)

  type Versions = map<string, string>

  // ---- specification ------------------------------------------------------

  /** A Go map read: the zero value when the key is missing. */
  function Lookup(m: Versions, id: string): string {
    if id in m then m[id] else ""
  }

  function View(m: Versions, id: string): Option<string> {
    if id in m then Some(m[id]) else None
  }

  function Snapshot(live: seq<TransferVersion>): Versions {
    if live == [] then map[]
    else Snapshot(live[..|live| - 1])[live[|live| - 1].id := live[|live| - 1].updatedAt]
  }

  predicate Successful(tick: Tick) {
    tick.subscribers != 0 && tick.query.Rows?
  }

  /** `seen` before the k-th tick of a run. */
  function SeenAt(ticks: seq<Tick>, k: nat): Versions
    requires k <= |ticks|
  {
    if k == 0 then map[]
    else if Successful(ticks[k - 1]) then Snapshot(ticks[k - 1].query.live)
    else SeenAt(ticks, k - 1)
  }

  /** The rows whose version is not the one remembered, in query order. */
  function Moved(seen: Versions, live: seq<TransferVersion>): seq<string> {
    if live == [] then []
    else
      var t := live[|live| - 1];
      Moved(seen, live[..|live| - 1]) + if Lookup(seen, t.id) != t.updatedAt then [t.id] else []
  }

  /** What one tick publishes: the rows that moved, then what left, in any order. */
  ghost predicate Publishes(seen: Versions, tick: Tick, published: seq<string>) {
    if !Successful(tick) then published == []
    else
      var moved := Moved(seen, tick.query.live);
      && moved <= published
      && NoDuplicates(published[|moved|..])
      && forall id :: id in published[|moved|..] <==> id in seen && id !in Snapshot(tick.query.live)
  }

  ghost predicate IsFeed(ticks: seq<Tick>, published: seq<seq<string>>) {
    |published| == |ticks|
    && forall k :: 0 <= k < |ticks| ==> Publishes(SeenAt(ticks, k), ticks[k], published[k])
  }

  // ---- the code -----------------------------------------------------------

  method WatchTransfers(ticks: seq<Tick>) returns (published: seq<seq<string>>)
    ensures IsFeed(ticks, published)
  {
    hide Publishes, Snapshot, Moved;
    var seen: Versions := map[];
    published := [];
    for i := 0 to |ticks|
      invariant |published| == i
      invariant seen == SeenAt(ticks, i)
      invariant forall k :: 0 <= k < i ==> Publishes(SeenAt(ticks, k), ticks[k], published[k])
    {
      IdlePublishesNothing(seen, ticks[i]);
      if ticks[i].subscribers == 0 {
        published := published + [[]];
        continue;
      }
      match ticks[i].query
      case Failed =>
        published := published + [[]];
      case Rows(live) =>
        var now, out := Compare(seen, live);
        var gone := Departed(seen, now);
        MovedThenGone(seen, ticks[i], gone);
        published := published + [out + gone];
        seen := now;
    }
  }

  lemma IdlePublishesNothing(seen: Versions, tick: Tick)
    ensures !Successful(tick) ==> Publishes(seen, tick, [])
  {
  }

  lemma MovedThenGone(seen: Versions, tick: Tick, gone: seq<string>)
    requires Successful(tick) && NoDuplicates(gone)
    requires forall id :: id in gone <==> id in seen && id !in Snapshot(tick.query.live)
    ensures Publishes(seen, tick, Moved(seen, tick.query.live) + gone)
  {
    var moved := Moved(seen, tick.query.live);
    assert (moved + gone)[|moved|..] == gone;
  }

  /** The loop over the query's rows. */
  method Compare(seen: Versions, live: seq<TransferVersion>) returns (now: Versions, out: seq<string>)
    ensures now == Snapshot(live) && out == Moved(seen, live)
  {
    now, out := map[], [];
    assert live[..0] == [];
    for i := 0 to |live|
      invariant now == Snapshot(live[..i]) && out == Moved(seen, live[..i])
    {
      var t := live[i];
      assert live[..i + 1][..i] == live[..i];
      now := now[t.id := t.updatedAt];
      if (if t.id in seen then seen[t.id] else "") != t.updatedAt {
        out := out + [t.id];
      }
    }
    assert live[..|live|] == live;
  }

  /** The loop over what was remembered, in the map's arbitrary order. */
  method Departed(seen: Versions, now: Versions) returns (out: seq<string>)
    ensures NoDuplicates(out)
    ensures forall id :: id in out <==> id in seen && id !in now
  {
    out := [];
    var todo := seen.Keys;
    while todo != {}
      invariant todo <= seen.Keys
      invariant NoDuplicates(out)
      invariant forall id :: id in out <==> id in seen && id !in now && id !in todo
      decreases todo
    {
      var id :| id in todo;
      todo := todo - {id};
      if id !in now {
        out := out + [id];
      }
    }
  }

  // ---- one tick -----------------------------------------------------------

  ghost predicate UniqueIds(live: seq<TransferVersion>) {
    forall i, j :: 0 <= i < j < |live| ==> live[i].id != live[j].id
  }

  lemma {:induction false} MovedIsDifference(seen: Versions, live: seq<TransferVersion>, id: string)
    ensures id in Snapshot(live) && Snapshot(live)[id] != Lookup(seen, id) ==> id in Moved(seen, live)
    ensures id in Snapshot(live) ==> TransferVersion(id, Snapshot(live)[id]) in live
    ensures id in Moved(seen, live) ==> exists i :: 0 <= i < |live| && live[i].id == id
    ensures (exists i :: 0 <= i < |live| && live[i].id == id) ==> id in Snapshot(live)
    ensures UniqueIds(live) && id in Moved(seen, live) ==> id in Snapshot(live) && Snapshot(live)[id] != Lookup(seen, id)
  {
    if live != [] {
      var front, t := live[..|live| - 1], live[|live| - 1];
      assert live == front + [t];
      MovedIsDifference(seen, front, id);
      assert forall i :: 0 <= i < |front| ==> front[i] == live[i];
    }
  }

  lemma {:induction false} MovedOnce(seen: Versions, live: seq<TransferVersion>)
    requires UniqueIds(live)
    ensures NoDuplicates(Moved(seen, live))
  {
    if live != [] {
      var front, t := live[..|live| - 1], live[|live| - 1];
      MovedOnce(seen, front);
      MovedIsDifference(seen, front, t.id);
    }
  }

  /** A transfer that appears without a version looks like one that is not there. */
  predicate AppearsBlank(before: Option<string>, after: Option<string>) {
    before == None && after == Some("")
  }

  /** A tick misses nothing but a blank appearance, even if a query repeats an ID. */
  lemma TickMissesNothing(seen: Versions, tick: Tick, published: seq<string>, id: string)
    requires Successful(tick) && Publishes(seen, tick, published)
    requires id !in published
    ensures var now := Snapshot(tick.query.live);
      View(now, id) == View(seen, id) || AppearsBlank(View(seen, id), View(now, id))
  {
    var moved := Moved(seen, tick.query.live);
    MovedIsDifference(seen, tick.query.live, id);
    assert published == moved + published[|moved|..];
    assert id !in moved && id !in published[|moved|..];
  }

  /** With unique IDs a tick publishes each changed, new or departed ID once, and no other. */
  lemma TickIsExact(seen: Versions, tick: Tick, published: seq<string>, id: string)
    requires Successful(tick) && Publishes(seen, tick, published)
    requires UniqueIds(tick.query.live)
    ensures NoDuplicates(published)
    ensures var now := Snapshot(tick.query.live);
      id in published <==> View(now, id) != View(seen, id) && !AppearsBlank(View(seen, id), View(now, id))
  {
    var live := tick.query.live;
    var moved := Moved(seen, live);
    var gone := published[|moved|..];
    assert published == moved + gone;
    MovedIsDifference(seen, live, id);
    MovedOnce(seen, live);
    forall x | x in moved ensures x !in gone {
      MovedIsDifference(seen, live, x);
    }
    ConcatNoDuplicates(moved, gone);
    if id !in published {
      TickMissesNothing(seen, tick, published, id);
    }
  }

  // ---- whole runs ---------------------------------------------------------

  /** A snapshot has the IDs the query returned, each with the version of its last row. */
  lemma {:induction false} SnapshotIsLastRow(live: seq<TransferVersion>, id: string)
    ensures id in Snapshot(live) <==> exists i :: 0 <= i < |live| && live[i].id == id
    ensures forall i :: 0 <= i < |live| && live[i].id == id && (forall m :: i < m < |live| ==> live[m].id != id) ==>
      id in Snapshot(live) && Snapshot(live)[id] == live[i].updatedAt
  {
    if live != [] {
      var front, t := live[..|live| - 1], live[|live| - 1];
      SnapshotIsLastRow(front, id);
      assert forall i :: 0 <= i < |front| ==> front[i] == live[i];
      assert live[|front|] == t;
    }
  }

  /** The rows a tick publishes are those whose version is not the one remembered, repeated IDs included. */
  lemma {:induction false} MovedIsByRow(seen: Versions, live: seq<TransferVersion>, id: string)
    ensures id in Moved(seen, live) <==>
      exists i :: 0 <= i < |live| && live[i].id == id && (if id in seen then seen[id] else "") != live[i].updatedAt
  {
    if live != [] {
      var front, t := live[..|live| - 1], live[|live| - 1];
      MovedIsByRow(seen, front, id);
      assert forall i :: 0 <= i < |front| ==> front[i] == live[i];
      assert live[|front|] == t;
    }
  }

  /** One hint for each such row, in the query's order. */
  lemma {:induction false} MovedRowByRow(seen: Versions, x: seq<TransferVersion>, y: seq<TransferVersion>)
    ensures Moved(seen, x + y) == Moved(seen, x) + Moved(seen, y)
    ensures |x| == 1 ==>
      var was := if x[0].id in seen then seen[x[0].id] else "";
      Moved(seen, x) == if was != x[0].updatedAt then [x[0].id] else []
  {
    if |x| == 1 {
      assert x[..0] == [];
    }
    if y == [] {
      assert x + y == x;
    } else {
      var front, t := y[..|y| - 1], y[|y| - 1];
      MovedRowByRow(seen, x, front);
      assert (x + y)[..|x + y| - 1] == x + front && (x + y)[|x + y| - 1] == t;
    }
  }

  /** What is remembered is the last answer the feed got while somebody was subscribed. */
  lemma {:induction false} SeenIsLastAnswer(ticks: seq<Tick>, j: nat, k: nat)
    requires j < k <= |ticks| && ticks[j].subscribers > 0 && ticks[j].query.Rows?
    requires forall m :: j < m < k ==> ticks[m].subscribers == 0 || ticks[m].query == Failed
    ensures SeenAt(ticks, k) == Snapshot(ticks[j].query.live)
    decreases k
  {
    if j < k - 1 {
      SeenIsLastAnswer(ticks, j, k - 1);
    }
  }

  /** Before the first such answer nothing is remembered, and a tick without one publishes nothing. */
  lemma {:induction false} NoAnswerNoChange(ticks: seq<Tick>, published: seq<seq<string>>, k: nat)
    requires IsFeed(ticks, published) && k <= |ticks|
    requires forall m :: 0 <= m < k ==> ticks[m].subscribers == 0 || ticks[m].query == Failed
    ensures SeenAt(ticks, k) == map[]
    ensures forall m :: 0 <= m < |ticks| && (ticks[m].subscribers == 0 || ticks[m].query == Failed) ==> published[m] == []
    decreases k
  {
    if k > 0 {
      NoAnswerNoChange(ticks, published, k - 1);
    } else {
      forall m | 0 <= m < |ticks| && (ticks[m].subscribers == 0 || ticks[m].query == Failed)
        ensures published[m] == []
      {
        assert Publishes(SeenAt(ticks, m), ticks[m], published[m]);
      }
    }
  }

  /**
   * No lost change. If a transfer's version or presence differs between two
   * points of a run, however many idle ticks and failed queries lie between,
   * it was published at a tick between them. The one exception is a transfer
   * that was absent and is now there without a version.
   */
  lemma {:induction false} NoLostChange(ticks: seq<Tick>, published: seq<seq<string>>, a: nat, b: nat, id: string)
    requires IsFeed(ticks, published) && a <= b <= |ticks|
    requires forall k :: a <= k < b ==> id !in published[k]
    ensures var before, after := View(SeenAt(ticks, a), id), View(SeenAt(ticks, b), id);
      before == after || AppearsBlank(before, after)
    decreases b
  {
    if a < b {
      NoLostChange(ticks, published, a, b - 1, id);
      assert Publishes(SeenAt(ticks, b - 1), ticks[b - 1], published[b - 1]);
      assert id !in published[b - 1];
      if Successful(ticks[b - 1]) {
        TickMissesNothing(SeenAt(ticks, b - 1), ticks[b - 1], published[b - 1], id);
      }
    }
  }

  /** The exception is real. */
  lemma BlankAppearanceIsLost(published: seq<seq<string>>)
    requires IsFeed([Tick(1, Rows([TransferVersion("t", "")]))], published)
    ensures View(SeenAt([Tick(1, Rows([TransferVersion("t", "")]))], 0), "t") == None
    ensures View(SeenAt([Tick(1, Rows([TransferVersion("t", "")]))], 1), "t") == Some("")
    ensures published == [[]]
  {
    var live := [TransferVersion("t", "")];
    var ticks := [Tick(1, Rows(live))];
    assert live[..0] == [];
    assert Moved(map[], live) == [] && Snapshot(live) == map["t" := ""];
    assert Publishes(map[], ticks[0], published[0]);
    assert Moved(map[], ticks[0].query.live) == [];
    var first := published[0];
    assert first == first[0..];
    if first != [] { HasElement(first); }
    assert published == [first];
  }

  lemma HasElement(s: seq<string>)
    requires s != []
    ensures exists id :: id in s
  {
    assert s[0] in s;
  }

  /** Every ID published from tick a up to tick b. */
  function Hints(published: seq<seq<string>>, a: nat, b: nat): seq<string>
    requires a <= b <= |published|
  {
    if a == b then [] else Hints(published, a, b - 1) + published[b - 1]
  }

  lemma {:induction false} HintsHold(published: seq<seq<string>>, a: nat, b: nat, id: string)
    requires a <= b <= |published|
    ensures id in Hints(published, a, b) <==> exists k :: a <= k < b && id in published[k]
  {
    if a < b {
      HintsHold(published, a, b - 1, id);
    }
  }

  /**
   * From the table to the reader: a reader that is registered before and stays
   * while the feed publishes the hints of ticks a to b, and that loses none of
   * them, has read or has waiting, among what it is sent meanwhile, the ID of
   * every transfer that changed between them. Other readers may come and go,
   * and read, in between.
   */
  lemma ChangeReachesReader(
    ticks: seq<Tick>, published: seq<seq<string>>, a: nat, b: nat, id: string,
    before: seq<EventHub.Step>, during: seq<EventHub.Step>, reader: nat)
    requires IsFeed(ticks, published) && a <= b <= |ticks|
    requires View(SeenAt(ticks, a), id) != View(SeenAt(ticks, b), id)
    requires !AppearsBlank(View(SeenAt(ticks, a), id), View(SeenAt(ticks, b), id))
    requires reader in EventHub.Run(before).subs
    requires forall i :: 0 <= i < |during| ==> during[i] != EventHub.Cancel(reader)
    requires EventHub.Transfers(during) == Hints(published, a, b)
    requires EventHub.Dropped(before + during, reader) == EventHub.Dropped(before, reader)
    ensures var steps := before + during;
      var sent := EventHub.Received(steps, reader) + EventHub.Buffer(EventHub.Run(steps), reader);
      && EventHub.Kept(before, reader) <= sent
      && id in sent[|EventHub.Kept(before, reader)|..]
  {
    EventHub.AttentiveReader(before, during, reader);
    EventHub.Delivery(before + during, reader);
    HintsHold(published, a, b, id);
    if forall k :: a <= k < b ==> id !in published[k] {
      NoLostChange(ticks, published, a, b, id);
    }
  }
}
