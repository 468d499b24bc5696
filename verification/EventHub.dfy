/**
 * `eventHub` in internal/api/events.go: subscribers with bounded, lossy queues.
 *
 * Every method body runs under the hub's mutex, so a method call is one atomic
 * step and a concurrent execution is some sequence of steps. A reader taking
 * from its channel is a step of its own.
 */
module EventHub {
  import opened Text

  const CAPACITY: nat := 64

  // ---- the protocol as a state machine ------------------------------------

  datatype ChanState = ChanState(buffer: seq<string>, closed: bool)

  /** `chans[id]` is the channel made for subscriber `id`, registered or not. */
  datatype HubState = HubState(next: nat, subs: set<nat>, chans: seq<ChanState>)

  datatype Step =
    | Subscribe
    | Cancel(id: nat)
    | Publish(transfer: string)
    | Receive(id: nat)

  const INIT: HubState := HubState(0, {}, [])

  /** A send with a default case: dropped when the buffer is full. */
  function Sent(buffer: seq<string>, transfer: string): seq<string> {
    if |buffer| < CAPACITY then buffer + [transfer] else buffer
  }

  function Next(h: HubState, step: Step): HubState {
    match step
    case Subscribe =>
      HubState(h.next + 1, h.subs + {h.next}, h.chans + [ChanState([], false)])
    case Cancel(id) =>
      if id in h.subs && id < |h.chans| then
        HubState(h.next, h.subs - {id}, h.chans[id := h.chans[id].(closed := true)])
      else h
    case Publish(transfer) =>
      h.(chans := seq(|h.chans|, i requires 0 <= i < |h.chans| =>
        if i in h.subs then h.chans[i].(buffer := Sent(h.chans[i].buffer, transfer)) else h.chans[i]))
    case Receive(id) =>
      if id < |h.chans| && h.chans[id].buffer != [] then
        h.(chans := h.chans[id := h.chans[id].(buffer := h.chans[id].buffer[1..])])
      else h
  }

  function Run(steps: seq<Step>): HubState {
    if steps == [] then INIT else Next(Run(steps[..|steps| - 1]), steps[|steps| - 1])
  }

  // ---- the code -----------------------------------------------------------

  class Channel {
    var buffer: seq<string>
    var closed: bool

    constructor ()
      ensures buffer == [] && !closed
    {
      buffer := [];
      closed := false;
    }

    /** Sending on a closed channel panics, so it must not be closed. */
    method Offer(transfer: string)
      requires !closed
      modifies this
      ensures buffer == Sent(old(buffer), transfer) && !closed
    {
      if |buffer| < CAPACITY {
        buffer := buffer + [transfer];
      }
    }

    /** Closing a channel twice panics. */
    method Close()
      requires !closed
      modifies this
      ensures closed && buffer == old(buffer)
    {
      closed := true;
    }
  }

  class Hub {
    var next: nat
    var subs: map<nat, Channel>
    /** Every channel ever made, by subscriber ID; the hub itself forgets the cancelled ones. */
    ghost var chans: seq<Channel>

    ghost predicate Valid()
      reads this, chans
    {
      && next == |chans|
      && (forall i, j :: 0 <= i < j < |chans| ==> chans[i] != chans[j])
      && (forall id :: id in subs ==> id < |chans| && subs[id] == chans[id])
      && (forall i :: 0 <= i < |chans| ==> (i in subs <==> !chans[i].closed))
    }

    ghost function State(): HubState
      reads this, chans
    {
      HubState(next, subs.Keys,
        seq(|chans|, i requires 0 <= i < |chans| reads this, chans => ChanState(chans[i].buffer, chans[i].closed)))
    }

    constructor ()
      ensures Valid() && State() == INIT
    {
      next := 0;
      subs := map[];
      chans := [];
    }

    /** The channel, and the ID the returned cancel function closes over. */
    method Subscribe() returns (ch: Channel, id: nat)
      requires Valid()
      modifies this
      ensures Valid() && fresh(ch) && chans == old(chans) + [ch] && id == old(next)
      ensures State() == Next(old(State()), Step.Subscribe)
    {
      ch := new Channel();
      id := next;
      next := next + 1;
      subs := subs[id := ch];
      chans := chans + [ch];
    }

    /** The function `subscribe` returns, for the subscriber it was returned to. */
    method Cancel(id: nat)
      requires Valid()
      modifies this, chans
      ensures Valid() && chans == old(chans)
      ensures State() == Next(old(State()), Step.Cancel(id))
    {
      if id in subs {
        var c := subs[id];
        subs := subs - {id};
        c.Close();
      }
    }

    /** The order in which the map is visited is arbitrary. */
    method Publish(transfer: string)
      requires Valid()
      modifies chans
      ensures Valid()
      ensures State() == Next(old(State()), Step.Publish(transfer))
    {
      OfferAll(transfer);
      var h := old(State());
      assert forall i :: 0 <= i < |chans| ==> State().chans[i] == Next(h, Step.Publish(transfer)).chans[i];
    }

    method OfferAll(transfer: string)
      requires Valid()
      modifies chans
      ensures Valid()
      ensures forall i :: 0 <= i < |chans| ==> chans[i].closed == old(chans[i].closed)
      ensures forall i :: 0 <= i < |chans| ==>
        chans[i].buffer == if i in subs then Sent(old(chans[i].buffer), transfer) else old(chans[i].buffer)
    {
      var todo := subs.Keys;
      while todo != {}
        invariant todo <= subs.Keys
        invariant forall i :: 0 <= i < |chans| ==> chans[i].closed == old(chans[i].closed)
        invariant forall i :: 0 <= i < |chans| && i in subs && i !in todo ==>
          chans[i].buffer == Sent(old(chans[i].buffer), transfer)
        invariant forall i :: 0 <= i < |chans| && (i in subs ==> i in todo) ==>
          chans[i].buffer == old(chans[i].buffer)
        decreases todo
      {
        var id :| id in todo;
        assert subs[id] == chans[id];
        subs[id].Offer(transfer);
        todo := todo - {id};
      }
    }

    method Subscribers() returns (n: nat)
      requires Valid()
      ensures n == |State().subs|
    {
      n := |subs|;
    }

    /** One read by the owner of channel `id`; None when the buffer is empty. */
    method Receive(ch: Channel, ghost id: nat) returns (r: Option<string>)
      requires Valid() && id < |chans| && ch == chans[id]
      modifies ch
      ensures Valid()
      ensures r == if old(ch.buffer) == [] then None else Some(old(ch.buffer)[0])
      ensures State() == Next(old(State()), Step.Receive(id))
    {
      if |ch.buffer| == 0 {
        return None;
      }
      r := Some(ch.buffer[0]);
      ch.buffer := ch.buffer[1..];
    }
  }

  // ---- lifecycle ----------------------------------------------------------

  ghost predicate WellFormed(h: HubState) {
    && h.next == |h.chans|
    && (forall id :: id in h.subs ==> id < h.next)
    && (forall i :: 0 <= i < h.next ==> (i in h.subs <==> !h.chans[i].closed))
    && (forall i :: 0 <= i < h.next ==> |h.chans[i].buffer| <= 64)
  }

  lemma {:induction false} RunWellFormed(steps: seq<Step>)
    ensures WellFormed(Run(steps))
  {
    if steps != [] {
      RunWellFormed(steps[..|steps| - 1]);
    }
  }

  function Buffer(h: HubState, id: nat): seq<string> {
    if id < |h.chans| then h.chans[id].buffer else []
  }

  /** One step, as subscriber `id` sees it. */
  lemma StepSeen(h: HubState, step: Step, id: nat)
    requires WellFormed(h)
    ensures WellFormed(Next(h, step))
    ensures Next(h, step).next == h.next + if step.Subscribe? then 1 else 0
    ensures id in Next(h, step).subs <==>
      (id in h.subs && step != Cancel(id)) || (step.Subscribe? && id == h.next)
    ensures Buffer(Next(h, step), id) ==
      if step.Publish? && id in h.subs then Sent(Buffer(h, id), step.transfer)
      else if step == Receive(id) && Buffer(h, id) != [] then Buffer(h, id)[1..]
      else Buffer(h, id)
    ensures |Buffer(h, id)| <= CAPACITY
    ensures id in h.subs ==> id < h.next && !h.chans[id].closed
  {
  }

  function Subscriptions(steps: seq<Step>): nat {
    if steps == [] then 0
    else Subscriptions(steps[..|steps| - 1]) + if steps[|steps| - 1].Subscribe? then 1 else 0
  }

  /** How often the channel of `id` is closed. */
  function Closings(steps: seq<Step>, id: nat): nat {
    if steps == [] then 0
    else
      var before, last := steps[..|steps| - 1], steps[|steps| - 1];
      Closings(before, id) + if last == Cancel(id) && id in Run(before).subs then 1 else 0
  }

  /** How often something is sent to the channel of `id` while it is closed. */
  function SendsAfterClose(steps: seq<Step>, id: nat): nat {
    if steps == [] then 0
    else
      var before, last := steps[..|steps| - 1], steps[|steps| - 1];
      var h := Run(before);
      SendsAfterClose(before, id)
        + if last.Publish? && id in h.subs && id < |h.chans| && h.chans[id].closed then 1 else 0
  }

  /**
   * The k-th subscriber gets ID k, so no ID is reused; its channel is closed at
   * most once, exactly when it is no longer registered; nothing is sent to it
   * after that.
   */
  lemma {:induction false} Lifecycle(steps: seq<Step>, id: nat)
    ensures Run(steps).next == Subscriptions(steps)
    ensures Closings(steps, id) == if id < Run(steps).next && id !in Run(steps).subs then 1 else 0
    ensures SendsAfterClose(steps, id) == 0
  {
    hide Next;
    if steps != [] {
      var before, last := steps[..|steps| - 1], steps[|steps| - 1];
      Lifecycle(before, id);
      RunWellFormed(before);
      StepSeen(Run(before), last, id);
    }
  }

  lemma CancelTwice(h: HubState, id: nat)
    requires WellFormed(h)
    ensures Next(Next(h, Cancel(id)), Cancel(id)) == Next(h, Cancel(id))
    ensures id !in Next(h, Cancel(id)).subs
  {
    assert id in h.subs ==> id < |h.chans|;
  }

  // ---- delivery -----------------------------------------------------------

  /** What was published while `id` was registered. */
  function Published(steps: seq<Step>, id: nat): seq<string> {
    if steps == [] then []
    else
      var before, last := steps[..|steps| - 1], steps[|steps| - 1];
      Published(before, id)
        + if last.Publish? && id in Run(before).subs then [last.transfer] else []
  }

  /** The part of it that did not meet a full queue. */
  function Kept(steps: seq<Step>, id: nat): seq<string> {
    if steps == [] then []
    else
      var before, last := steps[..|steps| - 1], steps[|steps| - 1];
      Kept(before, id)
        + if last.Publish? && id in Run(before).subs && |Buffer(Run(before), id)| != 64
          then [last.transfer] else []
  }

  /** How many met one: 64 IDs were waiting at that moment. */
  function Dropped(steps: seq<Step>, id: nat): nat {
    if steps == [] then 0
    else
      var before, last := steps[..|steps| - 1], steps[|steps| - 1];
      Dropped(before, id)
        + if last.Publish? && id in Run(before).subs && |Buffer(Run(before), id)| == 64 then 1 else 0
  }

  /** What the owner of channel `id` has read. */
  function Received(steps: seq<Step>, id: nat): seq<string> {
    if steps == [] then []
    else
      var before, last := steps[..|steps| - 1], steps[|steps| - 1];
      var buffer := Buffer(Run(before), id);
      Received(before, id) + if last == Receive(id) && buffer != [] then [buffer[0]] else []
  }

  ghost predicate Subsequence(a: seq<string>, b: seq<string>) {
    if a == [] then true
    else if b == [] then false
    else
      || Subsequence(a, b[..|b| - 1])
      || (a[|a| - 1] == b[|b| - 1] && Subsequence(a[..|a| - 1], b[..|b| - 1]))
  }

  /** A reader gets, in order and once each, exactly what did not meet a full queue. */
  lemma {:induction false} Delivery(steps: seq<Step>, id: nat)
    ensures Received(steps, id) + Buffer(Run(steps), id) == Kept(steps, id)
  {
    hide Next;
    hide Buffer;
    if steps == [] {
      NothingYet(id);
    } else {
      var before, last := steps[..|steps| - 1], steps[|steps| - 1];
      Delivery(before, id);
      RunWellFormed(before);
      StepSeen(Run(before), last, id);
      var buffer := Buffer(Run(before), id);
      if last == Receive(id) && buffer != [] {
        assert buffer == [buffer[0]] + buffer[1..];
      }
    }
  }

  lemma NothingYet(id: nat)
    ensures Buffer(Run([]), id) == []
  {
  }

  lemma AppendSubsequence(a: seq<string>, b: seq<string>, x: string)
    requires Subsequence(a, b)
    ensures Subsequence(a, b + [x]) && Subsequence(a + [x], b + [x])
  {
    assert (b + [x])[..|b|] == b && (a + [x])[..|a|] == a;
  }

  /** That is a subsequence of what was published, and all of it if the queue was never full. */
  lemma {:induction false} LossIsOverflow(steps: seq<Step>, id: nat)
    ensures Subsequence(Kept(steps, id), Published(steps, id))
    ensures |Published(steps, id)| == |Kept(steps, id)| + Dropped(steps, id)
    ensures Kept(steps, id) == Published(steps, id) <==> Dropped(steps, id) == 0
  {
    hide Next;
    hide Buffer;
    hide Subsequence;
    if steps == [] {
      NothingIsSubsequence();
    } else {
      var before, last := steps[..|steps| - 1], steps[|steps| - 1];
      LossIsOverflow(before, id);
      assert Kept(before, id) + [] == Kept(before, id) && Published(before, id) + [] == Published(before, id);
      if last.Publish? {
        AppendSubsequence(Kept(before, id), Published(before, id), last.transfer);
      }
    }
  }

  lemma NothingIsSubsequence()
    ensures Subsequence([], [])
  {
  }

  /** The IDs a run of steps publishes. */
  function Transfers(steps: seq<Step>): seq<string> {
    if steps == [] then []
    else
      var last := steps[|steps| - 1];
      Transfers(steps[..|steps| - 1]) + if last.Publish? then [last.transfer] else []
  }

  /**
   * While a registered reader stays and its queue has room, it is sent
   * everything that is published, whatever it lost before.
   */
  lemma {:induction false} AttentiveReader(before: seq<Step>, during: seq<Step>, id: nat)
    requires id in Run(before).subs
    requires forall i :: 0 <= i < |during| ==> during[i] != Cancel(id)
    ensures id in Run(before + during).subs
    ensures Dropped(before + during, id) >= Dropped(before, id)
    ensures Dropped(before + during, id) == Dropped(before, id) ==>
      Kept(before + during, id) == Kept(before, id) + Transfers(during)
  {
    hide Next;
    hide Buffer;
    if during == [] {
      assert before + during == before;
    } else {
      var front, last := during[..|during| - 1], during[|during| - 1];
      AttentiveReader(before, front, id);
      var steps := before + during;
      assert steps[..|steps| - 1] == before + front && steps[|steps| - 1] == last;
      RunWellFormed(before + front);
      StepSeen(Run(before + front), last, id);
    }
  }

  // ---- isolation ----------------------------------------------------------

  /** The steps that remain when every other reader stops reading and never leaves. */
  function Alone(steps: seq<Step>, id: nat): seq<Step> {
    if steps == [] then []
    else
      var before, last := steps[..|steps| - 1], steps[|steps| - 1];
      if (last.Receive? || last.Cancel?) && last.id != id then Alone(before, id)
      else Alone(before, id) + [last]
  }

  /** One subscriber, however slow, changes nothing about another's stream. */
  lemma {:induction false} Isolation(steps: seq<Step>, id: nat)
    ensures Received(steps, id) == Received(Alone(steps, id), id)
    ensures Buffer(Run(steps), id) == Buffer(Run(Alone(steps, id)), id)
    ensures id in Run(steps).subs <==> id in Run(Alone(steps, id)).subs
    ensures Run(steps).next == Run(Alone(steps, id)).next
  {
    hide Next;
    hide Buffer;
    if steps != [] {
      var before, last := steps[..|steps| - 1], steps[|steps| - 1];
      Isolation(before, id);
      RunWellFormed(before);
      StepSeen(Run(before), last, id);
      var alone := Alone(before, id);
      if !((last.Receive? || last.Cancel?) && last.id != id) {
        RunWellFormed(alone);
        StepSeen(Run(alone), last, id);
        assert (alone + [last])[..|alone|] == alone;
      }
    }
  }
}
