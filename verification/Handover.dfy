/**
 A subscriber that is first sent the logged events from a given number on and then, once the log
 is exhausted, the live ones. Events keep arriving all the while: each is first written to the
 log and then dispatched, and several dispatches may be under way at once.
 */
module Handover {
  import ReaderSpec = CyclicLogReaderSpec
  import opened Feeds
  import opened TagLogs

  /** The sending thread: searching, under a lock that it took when `taken` events had been written;
      between two records; with a record to be sent; or at its end. */
  datatype Sender<M> = Searching(taken: int) | Looping | Delivering(event: Event<M>) | Stopped

  /** The dispatches of written events, named by their numbers in the history: not yet offered to
      the consumer, offered while passing through but not yet delivered, and delivered. `inFlight`
      are those pending at the moment when the reader was exhausted. */
  datatype Live = Live(pending: set<int>, cleared: set<int>, delivered: set<int>, inFlight: set<int>)

  datatype State<M> = State(
    feed: Feed<Event<M>>,       // log and reader
    passthrough: bool,          // live events are handed to the subscriber
    sending: bool,              // the sending thread is to go on
    sender: Sender<M>,
    live: Live,
    received: seq<Event<M>>     // what the subscriber got
  )

  datatype Step<M> =
    | WriteEvent(event: Event<M>)
    | Offer(i: int)
    | DeliverLive(i: int)
    | Relock(i: int)
    | EndFound
    | EndNotFound
    | SenderRead
    | SenderCheck
    | SenderDeliver

  ghost function Next<M>(s: State<M>, step: Step<M>): State<M> {
    match step
    case WriteEvent(e) =>
      var feed := Advance(s.feed, ReaderSpec.Write(e));
      if Increasing(s.feed.history + [e]) && feed != s.feed then
        s.(feed := feed, live := s.live.(pending := s.live.pending + {|s.feed.history|}))
      else s
    case Offer(i) =>
      s.(live := Offered(s.live, i, s.passthrough))
    case DeliverLive(i) =>
      if i in s.live.cleared && 0 <= i < |s.feed.history| then
        s.(live := s.live.(cleared := s.live.cleared - {i}, delivered := s.live.delivered + {i}),
           received := s.received + [s.feed.history[i]])
      else s
    case Relock(i) =>
      if s.sender.Searching? && s.feed.next <= i < |s.feed.history| then
        s.(feed := s.feed.(next := i), sender := Searching(|s.feed.history|))
      else s
    case EndFound =>
      if s.sender.Searching? then s.(sender := Looping) else s
    case EndNotFound =>
      if s.sender.Searching? then SearchFailed(s) else s
    case SenderRead =>
      if !s.sender.Looping? || s.feed.holding then s
      else if !s.sending || !s.feed.open then s.(sender := Stopped)
      else s.(feed := Advance(s.feed, ReaderSpec.Read))
    case SenderCheck =>
      if !s.sender.Looping? || !s.feed.holding || !(0 <= s.feed.next < |s.feed.history|) then s
      else
        var feed := Advance(s.feed, ReaderSpec.Check);
        var exhausted := s.feed.open && !feed.open;
        s.(feed := feed, sender := Delivering(s.feed.history[s.feed.next]),
           passthrough := s.passthrough || exhausted,
           sending := s.sending && !exhausted,
           live := if exhausted then s.live.(inFlight := s.live.pending) else s.live)
    case SenderDeliver =>
      if !s.sender.Delivering? then s
      else s.(sender := Looping, received := s.received + [s.sender.event])
  }

  /** The search ends without success and gives up its lock. The reader is exhausted if no event has
      been written since the lock was taken. */
  ghost function SearchFailed<M>(s: State<M>): State<M> {
    var exhausted := s.sender.Searching? && s.sender.taken == |s.feed.history|;
    s.(feed := s.feed.(next := |s.feed.history|, open := false), sender := Stopped,
       passthrough := s.passthrough || exhausted,
       sending := s.sending && !exhausted,
       live := s.live.(inFlight := s.live.pending))
  }

  ghost function Offered(l: Live, i: int, passthrough: bool): Live {
    if i !in l.pending then l
    else l.(pending := l.pending - {i}, cleared := if passthrough then l.cleared + {i} else l.cleared)
  }

  ghost function Run<M>(s: State<M>, steps: seq<Step<M>>): State<M> {
    if steps == [] then s
    else Next(Run(s, steps[..|steps| - 1]), steps[|steps| - 1])
  }

  // ---------------------------------------------------------------- the invariant

  /** The sender has delivered the events up to this one. */
  ghost function Replayed<M>(s: State<M>): int {
    s.feed.next - Times(s.sender.Delivering?)
  }

  ghost function Times(b: bool): nat {
    if b then 1 else 0
  }

  /** The reader is where the sender needs it, and `passthrough` tells whether it was exhausted. */
  ghost predicate Replaying<M>(s: State<M>, t: int) {
    && 0 <= t <= Replayed(s) <= s.feed.next <= |s.feed.history|
    && Increasing(s.feed.history)
    && (s.passthrough <==> !s.feed.open)
    && (s.sending <==> !s.passthrough)
    && (s.feed.open ==> s.feed.next < |s.feed.history| && s.feed.capacity > 0)
    && (s.feed.holding ==> s.feed.open && s.sender.Looping?)
    && (s.sender.Delivering? ==> s.sender.event == s.feed.history[Replayed(s)])
    && (s.sender.Stopped? ==> s.passthrough)
    && !s.sender.Searching?
  }

  /** Event `i` is on its way to the subscriber, or has got there, by dispatch. */
  ghost predicate Tracked(l: Live, i: int) {
    i in l.pending || i in l.cleared || i in l.delivered
  }

  /** Dispatching `n` events, the reader being at number `cursor`. */
  ghost predicate Dispatching(l: Live, passthrough: bool, cursor: int, n: int) {
    && (forall i :: Tracked(l, i) ==> 0 <= i < n)
    && (forall i :: i in l.pending ==> i !in l.cleared && i !in l.delivered)
    && (forall i :: i in l.cleared ==> i !in l.delivered)
    && (if passthrough then
          forall i :: 0 <= i < n ==> if i < cursor then Tracked(l, i) ==> i in l.inFlight else Tracked(l, i)
        else l.cleared == {} && l.delivered == {})
  }

  /** Each event was received once from the sender, if it got that far, and once by dispatch, if it
      was dispatched while passing through. */
  ghost predicate Counted<M>(h: seq<Event<M>>, received: seq<Event<M>>, t: int, replayed: int, live: set<int>) {
    && (forall i :: 0 <= i < |h| ==>
          multiset(received)[h[i]] == Times(t <= i < replayed) + Times(i in live))
    && (forall e :: e in received ==> e in h)
  }

  ghost predicate InOrder<M>(h: seq<Event<M>>, received: seq<Event<M>>, t: int, replayed: int) {
    0 <= t <= replayed <= |h| && received == h[t..replayed]
  }

  ghost predicate Sound<M>(s: State<M>, t: int) {
    && Replaying(s, t)
    && Dispatching(s.live, s.passthrough, s.feed.next, |s.feed.history|)
    && Counted(s.feed.history, s.received, t, Replayed(s), s.live.delivered)
    && (!s.passthrough ==> InOrder(s.feed.history, s.received, t, Replayed(s)))
  }

  // ---------------------------------------------------------------- counting and dispatching

  lemma CountWritten<M>(h: seq<Event<M>>, e: Event<M>, received: seq<Event<M>>, t: int, replayed: int,
                        live: set<int>)
    requires Counted(h, received, t, replayed, live) && Increasing(h + [e])
    requires replayed <= |h| && |h| !in live
    ensures Counted(h + [e], received, t, replayed, live)
  {
    var g := h + [e];
    assert forall i :: 0 <= i < |h| ==> g[i] == h[i] && g[i].id < g[|h|].id;
    assert e !in received;
    forall x | x in received
      ensures x in g
    {
      var k :| 0 <= k < |h| && h[k] == x;
      assert g[k] == x;
    }
  }

  /** Receiving event `k` adds one to its count and to no other. */
  lemma CountReceived<M>(h: seq<Event<M>>, received: seq<Event<M>>, k: int)
    requires Increasing(h) && 0 <= k < |h|
    ensures forall i :: 0 <= i < |h| ==>
              multiset(received + [h[k]])[h[i]] == multiset(received)[h[i]] + Times(i == k)
  {
    forall i | 0 <= i < |h|
      ensures multiset(received + [h[k]])[h[i]] == multiset(received)[h[i]] + Times(i == k)
    {
      assert i < k ==> h[i].id < h[k].id;
      assert k < i ==> h[k].id < h[i].id;
    }
  }

  lemma CountLive<M>(h: seq<Event<M>>, received: seq<Event<M>>, t: int, replayed: int, live: set<int>, k: int)
    requires Counted(h, received, t, replayed, live) && Increasing(h)
    requires 0 <= k < |h| && k !in live
    ensures Counted(h, received + [h[k]], t, replayed, live + {k})
  {
    CountReceived(h, received, k);
  }

  lemma CountReplayed<M>(h: seq<Event<M>>, received: seq<Event<M>>, t: int, replayed: int, live: set<int>)
    requires Counted(h, received, t, replayed, live) && Increasing(h)
    requires 0 <= t <= replayed < |h|
    ensures Counted(h, received + [h[replayed]], t, replayed + 1, live)
  {
    CountReceived(h, received, replayed);
  }

  lemma OrderReplayed<M>(h: seq<Event<M>>, received: seq<Event<M>>, t: int, replayed: int)
    requires InOrder(h, received, t, replayed) && replayed < |h|
    ensures InOrder(h, received + [h[replayed]], t, replayed + 1)
  {
  }

  lemma OfferDispatches(l: Live, i: int, passthrough: bool, cursor: int, n: int)
    requires Dispatching(l, passthrough, cursor, n)
    ensures Dispatching(Offered(l, i, passthrough), passthrough, cursor, n)
  {
    assert forall j :: passthrough ==> (Tracked(Offered(l, i, passthrough), j) <==> Tracked(l, j));
    assert forall j :: Tracked(Offered(l, i, passthrough), j) ==> Tracked(l, j);
  }

  lemma DeliveryDispatches(l: Live, i: int, passthrough: bool, cursor: int, n: int)
    requires Dispatching(l, passthrough, cursor, n) && i in l.cleared
    ensures Dispatching(l.(cleared := l.cleared - {i}, delivered := l.delivered + {i}), passthrough, cursor, n)
  {
    var m := l.(cleared := l.cleared - {i}, delivered := l.delivered + {i});
    assert forall j :: Tracked(m, j) <==> Tracked(l, j);
  }

  lemma WriteDispatches(l: Live, passthrough: bool, cursor: int, n: int)
    requires Dispatching(l, passthrough, cursor, n) && 0 <= n && cursor <= n
    ensures Dispatching(l.(pending := l.pending + {n}), passthrough, cursor, n + 1) && n !in l.delivered
  {
    var m := l.(pending := l.pending + {n});
    assert !Tracked(l, n);
    assert forall j :: Tracked(m, j) <==> (Tracked(l, j) || j == n);
  }

  lemma ExhaustionDispatches(l: Live, cursor: int, n: int, exhausted: bool)
    requires Dispatching(l, false, cursor, n) && (exhausted ==> cursor + 1 == n)
    ensures Dispatching(if exhausted then l.(inFlight := l.pending) else l, exhausted, cursor + 1, n)
  {
    if exhausted {
      var m := l.(inFlight := l.pending);
      assert forall j :: Tracked(m, j) <==> j in l.pending;
      assert forall j :: Tracked(m, j) ==> Tracked(l, j);
    }
  }

  // ---------------------------------------------------------------- what every step keeps

  lemma WriteKeeps<M>(s: State<M>, e: Event<M>, t: int)
    requires Sound(s, t)
    ensures Sound(Next(s, WriteEvent(e)), t)
  {
    hide Dispatching, Counted, Increasing;
    if Next(s, WriteEvent(e)) != s {
      assert (s.feed.history + [e])[t..Replayed(s)] == s.feed.history[t..Replayed(s)];
      WriteDispatches(s.live, s.passthrough, s.feed.next, |s.feed.history|);
      CountWritten(s.feed.history, e, s.received, t, Replayed(s), s.live.delivered);
    }
  }

  lemma OfferKeeps<M>(s: State<M>, i: int, t: int)
    requires Sound(s, t)
    ensures Sound(Next(s, Offer(i)), t)
  {
    hide Dispatching, Counted, Increasing, InOrder;
    OfferDispatches(s.live, i, s.passthrough, s.feed.next, |s.feed.history|);
  }

  lemma SenderReadKeeps<M>(s: State<M>, t: int)
    requires Sound(s, t)
    ensures Sound(Next(s, SenderRead), t)
  {
    hide Dispatching, Counted, Increasing, InOrder;
  }

  /** Once live events pass through they keep doing so, and the cursor stays at the end. */
  lemma PassthroughStays<M>(s: State<M>, step: Step<M>, t: int)
    requires Sound(s, t) && s.passthrough
    ensures Next(s, step).passthrough && Next(s, step).feed.next == s.feed.next
  {
    hide Dispatching, Counted, Increasing, InOrder;
  }

  lemma DeliverLiveKeeps<M>(s: State<M>, i: int, t: int)
    requires Sound(s, t)
    ensures Sound(Next(s, DeliverLive(i)), t)
  {
    if i in s.live.cleared {
      DeliveryDispatches(s.live, i, s.passthrough, s.feed.next, |s.feed.history|);
      assert Tracked(s.live, i);
      CountLive(s.feed.history, s.received, t, Replayed(s), s.live.delivered, i);
    }
  }

  lemma SenderCheckKeeps<M>(s: State<M>, t: int)
    requires Sound(s, t)
    ensures Sound(Next(s, SenderCheck), t)
  {
    if s.feed.holding {
      ExhaustionDispatches(s.live, s.feed.next, |s.feed.history|, s.feed.next + 1 == |s.feed.history|);
    }
  }

  lemma DeliveryReplays<M>(s: State<M>, t: int)
    requires Replaying(s, t) && s.sender.Delivering?
    ensures var u := Next(s, SenderDeliver);
            && Replaying(u, t) && Replayed(u) == Replayed(s) + 1 <= |s.feed.history| && 0 <= t <= Replayed(s)
            && u == s.(sender := Looping, received := s.received + [s.feed.history[Replayed(s)]])
    ensures Increasing(s.feed.history)
  {
    hide Increasing;
  }

  lemma DeliveryKeeps<M>(s: State<M>, t: int)
    requires Sound(s, t) && s.sender.Delivering?
    ensures Sound(Next(s, SenderDeliver), t)
  {
    hide Dispatching, Counted, Increasing, InOrder, Replaying, Replayed, Next;
    DeliveryReplays(s, t);
    CountReplayed(s.feed.history, s.received, t, Replayed(s), s.live.delivered);
    if !s.passthrough {
      OrderReplayed(s.feed.history, s.received, t, Replayed(s));
    }
  }

  lemma SenderDeliverKeeps<M>(s: State<M>, t: int)
    requires Sound(s, t)
    ensures Sound(Next(s, SenderDeliver), t)
  {
    hide Sound;
    if s.sender.Delivering? {
      DeliveryKeeps(s, t);
    }
  }

  lemma NextKeeps<M>(s: State<M>, step: Step<M>, t: int)
    requires Sound(s, t)
    ensures Sound(Next(s, step), t)
    ensures s.passthrough ==> Next(s, step).passthrough && Next(s, step).feed.next == s.feed.next
  {
    hide Sound, Next;
    if s.passthrough {
      PassthroughStays(s, step, t);
    }
    match step
    case WriteEvent(e) => WriteKeeps(s, e, t);
    case Offer(i) => OfferKeeps(s, i, t);
    case DeliverLive(i) => DeliverLiveKeeps(s, i, t);
    case SenderRead => SenderReadKeeps(s, t);
    case SenderCheck => SenderCheckKeeps(s, t);
    case SenderDeliver => SenderDeliverKeeps(s, t);
    case _ => SearchStepKeeps(s, step, t);
  }

  lemma SearchStepKeeps<M>(s: State<M>, step: Step<M>, t: int)
    requires Sound(s, t) && (step.Relock? || step.EndFound? || step.EndNotFound?)
    ensures Next(s, step) == s
  {
    hide Dispatching, Counted, Increasing, InOrder;
  }

  lemma {:induction false} RunKeeps<M>(s: State<M>, steps: seq<Step<M>>, t: int)
    requires Sound(s, t)
    ensures Sound(Run(s, steps), t)
    ensures s.passthrough ==> Run(s, steps).passthrough && Run(s, steps).feed.next == s.feed.next
  {
    if steps != [] {
      RunKeeps(s, steps[..|steps| - 1], t);
      NextKeeps(Run(s, steps[..|steps| - 1]), steps[|steps| - 1], t);
    }
  }

  // ---------------------------------------------------------------- no event is lost

  /** A successful seek to event number `t` of the history; any dispatches may be under way. */
  ghost predicate Sought<M>(s: State<M>, t: int) {
    && s.feed.next == t && s.feed.open && !s.feed.holding && s.feed.capacity > 0
    && 0 <= t < |s.feed.history| && Increasing(s.feed.history)
    && !s.passthrough && s.sending && s.sender == Looping
    && (forall i :: i in s.live.pending ==> 0 <= i < |s.feed.history|)
    && s.live.cleared == {} && s.live.delivered == {} && s.received == []
  }

  lemma RunFromSought<M>(s: State<M>, steps: seq<Step<M>>, t: int)
    requires Sought(s, t)
    ensures Sound(Run(s, steps), t)
  {
    assert Replaying(s, t);
    RunKeeps(s, steps, t);
  }

  lemma Accounted<M>(u: State<M>, t: int, i: int)
    requires Sound(u, t) && t <= i < |u.feed.history|
    ensures var e := u.feed.history[i];
            && (|| multiset(u.received)[e] > 0
                || u.sender == Delivering(e)
                || (!u.passthrough && i >= u.feed.next)
                || (u.passthrough && (i in u.live.pending || i in u.live.cleared)))
            && multiset(u.received)[e] <= 2
            && (multiset(u.received)[e] == 2 ==> u.passthrough && i in u.live.inFlight)
  {
    hide Increasing, InOrder;
    assert i in u.live.delivered ==> Tracked(u.live, i);
    assert u.passthrough && i >= u.feed.next ==> Tracked(u.live, i);
  }

  /** In every reachable state, each event from the seek target on was received, is in the sender's
      hand, is still ahead of the reader, or, once live events pass through, waits in a dispatch. No
      event is received more than twice, and only one whose dispatch was under way when the reader
      was exhausted is received twice. */
  lemma NoEventLost<M>(s: State<M>, steps: seq<Step<M>>, t: int, i: int)
    requires Sought(s, t)
    requires t <= i < |Run(s, steps).feed.history|
    ensures var u := Run(s, steps);
            var e := u.feed.history[i];
            && (|| multiset(u.received)[e] > 0
                || u.sender == Delivering(e)
                || (!u.passthrough && i >= u.feed.next)
                || (u.passthrough && (i in u.live.pending || i in u.live.cleared)))
            && multiset(u.received)[e] <= 2
            && (multiset(u.received)[e] == 2 ==> u.passthrough && i in u.live.inFlight)
  {
    RunFromSought(s, steps, t);
    hide Run, Sound, Sought;
    Accounted(Run(s, steps), t, i);
  }

  /** Once the sending thread has ended and no dispatch is under way, every event from the target on
      was received once or twice. */
  lemma AllReceivedAtRest<M>(s: State<M>, steps: seq<Step<M>>, t: int, i: int)
    requires Sought(s, t)
    requires var u := Run(s, steps); u.sender == Stopped && u.live.pending == {} && u.live.cleared == {}
    requires t <= i < |Run(s, steps).feed.history|
    ensures 1 <= multiset(Run(s, steps).received)[Run(s, steps).feed.history[i]] <= 2
  {
    RunFromSought(s, steps, t);
    NoEventLost(s, steps, t, i);
  }

  /** Until the log is exhausted, the subscriber has received exactly the events from the target on,
      in the order logged. */
  lemma ReplayInOrder<M>(s: State<M>, steps: seq<Step<M>>, t: int)
    requires Sought(s, t) && !Run(s, steps).passthrough
    ensures t + |Run(s, steps).received| <= |Run(s, steps).feed.history|
    ensures Run(s, steps).received == Run(s, steps).feed.history[t..t + |Run(s, steps).received|]
  {
    RunFromSought(s, steps, t);
  }

  /** One turn of the sender's loop, with the writer at rest. */
  ghost function Turn<M>(s: State<M>): State<M> {
    Next(Next(Next(s, SenderRead), SenderCheck), SenderDeliver)
  }

  ghost function Turns<M>(s: State<M>, k: nat): State<M> {
    if k == 0 then s else Turn(Turns(s, k - 1))
  }

  /** The sender is between two records and has delivered `k` events from number `t` on. */
  ghost predicate Between<M>(s: State<M>, h: seq<Event<M>>, t: int, k: nat) {
    && s.feed.history == h && s.sender == Looping && !s.feed.holding
    && 0 <= t <= t + k == s.feed.next <= |h|
    && s.received == h[t..t + k]
    && s.feed.open == !s.passthrough == s.sending == (t + k < |h|)
  }

  lemma TurnReplays<M>(s: State<M>, h: seq<Event<M>>, t: int, k: nat)
    requires Between(s, h, t, k) && t + k < |h|
    ensures Between(Turn(s), h, t, k + 1)
  {
    assert h[t..t + k + 1] == h[t..t + k] + [h[t + k]];
  }

  lemma ReplayStarts<M>(s: State<M>, t: int)
    requires Sought(s, t)
    ensures Between(s, s.feed.history, t, 0)
  {
  }

  /** The sender never gets stuck: with the writer at rest, one turn for each unread record delivers
      them all in order and hands over to the live events. */
  lemma {:induction false} ReplayEnds<M>(s: State<M>, t: int, k: nat)
    requires Sought(s, t) && k <= |s.feed.history| - t
    ensures Between(Turns(s, k), s.feed.history, t, k)
  {
    hide Sought, Between, Turn;
    if k == 0 {
      ReplayStarts(s, t);
    } else {
      ReplayEnds(s, t, k - 1);
      TurnReplays(Turns(s, k - 1), s.feed.history, t, k - 1);
    }
  }

  // ---------------------------------------------------------------- the same on the ring

  /** The steps of the reader and the writer that a step of the handover makes. */
  ghost function OnRing<M>(s: State<M>, step: Step<M>): seq<ReaderSpec.Step<Event<M>>> {
    match step
    case WriteEvent(e) => if Increasing(s.feed.history + [e]) then [ReaderSpec.Write(e)] else []
    case SenderRead => if s.sender.Looping? && !s.feed.holding && s.sending then [ReaderSpec.Read] else []
    case SenderCheck => if s.sender.Looping? && s.feed.holding then [ReaderSpec.Check] else []
    case _ => []
  }

  ghost function AllOnRing<M>(s: State<M>, steps: seq<Step<M>>): seq<ReaderSpec.Step<Event<M>>> {
    if steps == [] then []
    else AllOnRing(s, steps[..|steps| - 1])
         + OnRing(Run(s, steps[..|steps| - 1]), steps[|steps| - 1])
  }

  lemma StepOnRing<M>(s: State<M>, step: Step<M>, t: int)
    requires Sound(s, t)
    ensures Next(s, step).feed == AdvanceAll(s.feed, OnRing(s, step))
  {
  }

  lemma {:induction false} AdvanceJoins<T>(f: Feed<T>, a: seq<ReaderSpec.Step<T>>, b: seq<ReaderSpec.Step<T>>)
    requires |b| <= 1
    ensures AdvanceAll(f, a + b) == AdvanceAll(AdvanceAll(f, a), b)
  {
    if b == [] {
      assert a + b == a;
    } else {
      assert (a + b)[..|a + b| - 1] == a;
      assert b[..0] == [];
    }
  }

  /** Every run of the handover is one of the ring: from a reader positioned at the target, the
      corresponding steps of reader and writer lead to the same history and cursor. */
  lemma {:induction false} HandoverRunsOnRing<M>(sys: ReaderSpec.System<Event<M>>, s: State<M>,
                                                 steps: seq<Step<M>>, t: int)
    requires Sought(s, t)
    requires ReaderSpec.Positioned(sys, t) && sys.pulled == [] && FeedOf(sys, t) == s.feed
    ensures FeedOf(ReaderSpec.Run(sys, AllOnRing(s, steps)), t) == Run(s, steps).feed
  {
    assert ReaderSpec.Reading(sys, t, sys.signals);
    RingRefinesFeed(sys, AllOnRing(s, steps), t, sys.signals);
    FeedRun(s, steps, t);
  }

  lemma {:induction false} FeedRun<M>(s: State<M>, steps: seq<Step<M>>, t: int)
    requires Sought(s, t)
    ensures Run(s, steps).feed == AdvanceAll(s.feed, AllOnRing(s, steps))
  {
    if steps != [] {
      var before := steps[..|steps| - 1];
      FeedRun(s, before, t);
      RunFromSought(s, before, t);
      StepOnRing(Run(s, before), steps[|steps| - 1], t);
      AdvanceJoins(s.feed, AllOnRing(s, before), OnRing(Run(s, before), steps[|steps| - 1]));
    }
  }

  /** What a consumer does with a live event: an offer and, if live events pass through, its delivery. A
      dispatch changes nothing else that the sending thread or another dispatch sees. */
  lemma OfferDelivers<M>(s: State<M>, t: int, i: int)
    requires Sound(s, t) && i in s.live.pending
    ensures var u := Next(Next(s, Offer(i)), DeliverLive(i));
            && 0 <= i < |s.feed.history| && u == s.(live := u.live, received := u.received)
            && u.received == s.received + (if s.passthrough then [s.feed.history[i]] else [])
            && u.live.pending == s.live.pending - {i} && u.live.cleared == s.live.cleared
            && u.live.delivered == s.live.delivered + (if s.passthrough then {i} else {})
  {
    assert Tracked(s.live, i) && i !in s.live.cleared;
    assert s.live.cleared + {i} - {i} == s.live.cleared;
  }

  // ---------------------------------------------------------------- after a search without success

  /** The search has just taken a lock; any dispatches may be under way. */
  ghost predicate AtLock<M>(s: State<M>) {
    && s.sender == Searching(|s.feed.history|)
    && s.feed.open && !s.feed.holding && 0 <= s.feed.next <= |s.feed.history|
    && Quiet(s)
  }

  /** Nothing was received, and no dispatch can deliver anything. */
  ghost predicate Quiet<M>(s: State<M>) {
    && Increasing(s.feed.history) && !s.passthrough && s.sending
    && (forall i :: i in s.live.pending ==> 0 <= i < |s.feed.history|)
    && s.live.cleared == {} && s.live.delivered == {} && s.received == []
  }

  /** The lock taken at first is the last one, and the search is still under way. */
  ghost predicate KeepsLock<M>(steps: seq<Step<M>>) {
    forall k :: 0 <= k < |steps| ==> !steps[k].Relock? && !steps[k].EndFound? && !steps[k].EndNotFound?
  }

  lemma {:induction false} SearchUnderLock<M>(s: State<M>, steps: seq<Step<M>>)
    requires AtLock(s) && KeepsLock(steps)
    ensures var u := Run(s, steps);
            && u.sender == s.sender && s.feed.history <= u.feed.history && Quiet(u)
            && u.feed.open && !u.feed.holding
  {
    if steps != [] {
      SearchUnderLock(s, steps[..|steps| - 1]);
      assert steps[|steps| - 1] in steps;
    }
  }

  /** The thread has ended and released its lock. */
  ghost predicate NotFound<M>(s: State<M>) {
    && !s.feed.open && !s.feed.holding && s.feed.next == |s.feed.history|
    && Increasing(s.feed.history)
    && s.sending == !s.passthrough && s.sender == Stopped
    && (forall i :: i in s.live.pending ==> 0 <= i < |s.feed.history|)
    && s.live.inFlight == s.live.pending
    && s.live.cleared == {} && s.live.delivered == {} && s.received == []
  }

  lemma {:induction false} SilentForever<M>(s: State<M>, steps: seq<Step<M>>)
    requires NotFound(s) && !s.passthrough
    ensures var u := Run(s, steps);
            && u.received == [] && !u.passthrough && u.live.cleared == {}
            && u.sender == Stopped && !u.feed.open && !u.feed.holding
  {
    if steps != [] {
      SilentForever(s, steps[..|steps| - 1]);
    }
  }

  /** A search that ends with success, its last lock being on the target, leaves a state from which no
      event is lost. */
  lemma FoundIsSought<M>(s: State<M>, before: seq<Step<M>>)
    requires AtLock(s) && KeepsLock(before) && s.feed.next < |s.feed.history| && s.feed.capacity > 0
    ensures Sought(Next(Run(s, before), EndFound), s.feed.next)
  {
    SearchUnderLock(s, before);
    SearchKeepsCursor(s, before);
  }

  lemma {:induction false} SearchKeepsCursor<M>(s: State<M>, steps: seq<Step<M>>)
    requires s.sender.Searching? && KeepsLock(steps)
    ensures var u := Run(s, steps);
            u.sender == s.sender && u.feed.next == s.feed.next && u.feed.capacity == s.feed.capacity
  {
    if steps != [] {
      SearchKeepsCursor(s, steps[..|steps| - 1]);
      assert steps[|steps| - 1] in steps;
    }
  }

  lemma AfterFailure<M>(s: State<M>, steps: seq<Step<M>>, i: int)
    requires NotFound(s)
    requires var u := Run(s, steps);
             |s.feed.history| <= i < |u.feed.history| && i !in u.live.pending && i !in u.live.cleared
    ensures multiset(Run(s, steps).received)[Run(s, steps).feed.history[i]] > 0 <==> s.passthrough
  {
    if s.passthrough {
      assert Sound(s, |s.feed.history|);
      RunKeeps(s, steps, |s.feed.history|);
      assert Tracked(Run(s, steps).live, i);
    } else {
      SilentForever(s, steps);
    }
  }

  /** A search that finds nothing takes its last lock in state `s`, makes the steps `before` under it,
      and ends. If no event is written by `before`, every later event reaches the subscriber; if one is,
      none of them ever does. */
  lemma NotFoundExact<M>(s: State<M>, before: seq<Step<M>>, after: seq<Step<M>>, i: int)
    requires AtLock(s) && KeepsLock(before)
    requires var ended := Next(Run(s, before), EndNotFound);
             var u := Run(ended, after);
             |ended.feed.history| <= i < |u.feed.history| && i !in u.live.pending && i !in u.live.cleared
    ensures var u := Run(Next(Run(s, before), EndNotFound), after);
            multiset(u.received)[u.feed.history[i]] > 0
            <==> Run(s, before).feed.history == s.feed.history
  {
    SearchUnderLock(s, before);
    var ended := Next(Run(s, before), EndNotFound);
    assert NotFound(ended);
    AfterFailure(ended, after, i);
  }

  /** So it can happen: the log of two records holds event 1, a search for a later one takes its lock,
      and event 2 is written before the search ends. From then on the subscriber gets nothing, although
      it was subscribed before event 2 came. */
  lemma SilentSubscriber(after: seq<Step<()>>)
    ensures var e1, e2 := Event(1, Message(true, ())), Event(2, Message(true, ()));
            var s := State(Feed([e1], 0, false, true, 2), false, true, Searching(1), Live({}, {}, {}, {}), []);
            var ended := Next(Run(s, [WriteEvent(e2)]), EndNotFound);
            && AtLock(s) && ended.feed.history == [e1, e2]
            && Run(ended, after).received == [] && !Run(ended, after).passthrough
  {
    var e1, e2 := Event(1, Message(true, ())), Event(2, Message(true, ()));
    var s := State(Feed([e1], 0, false, true, 2), false, true, Searching(1), Live({}, {}, {}, {}), []);
    var steps := [WriteEvent(e2)];
    assert steps[..0] == [] && Run(s, steps) == Next(Run(s, steps[..0]), WriteEvent(e2));
    SearchUnderLock(s, steps);
    var ended := Next(Run(s, steps), EndNotFound);
    assert NotFound(ended) && !ended.passthrough;
    SilentForever(ended, after);
  }
}
