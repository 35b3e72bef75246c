/** The consumer that replays logged events to its subscriber before letting live ones through. */
module LogConsumers {
  import opened Wrappers
  import opened CyclicLogSpec
  import opened ReaderSpec = CyclicLogReaderSpec
  import opened CyclicLogReaders
  import opened CyclicLogs
  import opened TagLogs
  import opened Feeds
  import opened HandoverTurns
  import H = Handover

  function TotalLength<T>(batches: seq<seq<T>>): nat {
    if batches == [] then 0 else |batches[0]| + TotalLength(batches[1..])
  }

  lemma TotalLengthFrom<T>(batches: seq<seq<T>>, k: nat)
    requires k <= |batches|
    ensures k < |batches| ==> TotalLength(batches[k..]) == |batches[k]| + TotalLength(batches[k + 1..])
  {
    if k < |batches| {
      assert batches[k..][1..] == batches[k + 1..];
    }
  }

  /** The log at the start of a replay, where the replay starts, and the record it has come to. */
  datatype Cursor<M> = Cursor(start: seq<Event<M>>, t: int, r: int)

  function Advanced<M>(at: Cursor<M>): Cursor<M> {
    at.(r := at.r + 1)
  }

  class LogConsumer<M> {
    const lastEventId: int
    var sending: bool                 // the sender thread is set
    var passthrough: bool
    var received: seq<Event<M>>       // what the proxied consumer was given

    constructor (lastEventId: int)
      ensures this.lastEventId == lastEventId && sending && !passthrough && received == []
    {
      this.lastEventId, sending, passthrough, received := lastEventId, true, false, [];
    }

    /** A live event. */
    method MessageReceived(event: Event<M>)
      modifies this`received
      ensures received == old(received) + if passthrough then [event] else []
    {
      if passthrough {
        received := received + [event];
      }
    }

    method ReaderExhausted()
      modifies this`passthrough, this`sending
      ensures passthrough && !sending
    {
      passthrough := true;
      sending := false;
    }

    /** The state of the sending loop: what was sent so far, and that it goes on exactly while the reader
        holds its lock. */
    ghost predicate InLoop(reader: CyclicLogReader<Event<M>>, at: Cursor<M>)
      reads this, reader, reader.log, reader.log.chain
    {
      match at
      case Cursor(start, t, r) =>
        && reader.Valid() && reader.hasClient && reader.hand == None && r == t + |reader.pulled|
        && start <= reader.log.history && 0 <= t <= r <= |reader.log.history|
        && received == reader.log.history[t..r]
        && (if sending then
              !passthrough && reader.lock != null && Positioned(reader.View(), r) && r < |reader.log.history|
            else
              passthrough && reader.lock == null && Unlocked(reader.View()) && r == |reader.log.history|)
    }

    /** One turn of the sending loop. */
    method SendOne(reader: CyclicLogReader<Event<M>>, batch: seq<Event<M>>, ghost at: Cursor<M>)
      requires sending && InLoop(reader, at)
      modifies this`passthrough, this`sending, this`received, reader, reader.log, reader.log.chain
      ensures InLoop(reader, Advanced(at)) && Loose(reader) && (reader.lock == null || fresh(reader.lock))
      ensures old(reader.log.history) <= reader.log.history && at.r < |reader.log.history|
      ensures |reader.log.history| <= |old(reader.log.history)| + |batch|
      ensures reader.View() == ReaderSpec.Next(WriteAll(ReaderSpec.Next(old(reader.View()), Read), batch), Check)
      ensures received == old(received) + [reader.log.history[at.r]]
    {
      hide *;
      LoopOpened(reader, at);
      var notified := reader.notified;
      var record := reader.Pull(batch, at.r);
      if reader.notified > notified {
        ReaderExhausted();
      }
      if record.Some? {
        received := received + [record.value];
      }
      LoopAdvanced(reader, at, old(reader.log.history), old(received));
    }

    lemma LoopOpened(reader: CyclicLogReader<Event<M>>, at: Cursor<M>)
      requires sending && InLoop(reader, at)
      ensures reader.Valid() && reader.hasClient && reader.hand == None && at.r == at.t + |reader.pulled|
      ensures at.start <= reader.log.history && 0 <= at.t <= at.r < |reader.log.history|
      ensures received == reader.log.history[at.t..at.r] && !passthrough
      ensures reader.lock != null && Positioned(reader.View(), at.r) && reader.log.chain == [reader.lock]
    {
    }

    lemma LoopAdvanced(reader: CyclicLogReader<Event<M>>, at: Cursor<M>, h: seq<Event<M>>, before: seq<Event<M>>)
      requires reader.Valid() && reader.hasClient && reader.hand == None && at.r + 1 == at.t + |reader.pulled|
      requires at.start <= h <= reader.log.history && 0 <= at.t <= at.r < |h| && before == h[at.t..at.r]
      requires received == before + [reader.log.history[at.r]]
      requires sending == !passthrough == (at.r + 1 < |reader.log.history|)
      requires at.r + 1 == |reader.log.history| ==> reader.lock == null && Unlocked(reader.View())
      requires at.r + 1 < |reader.log.history| ==> reader.lock != null && Positioned(reader.View(), at.r + 1)
      ensures InLoop(reader, Advanced(at)) && Loose(reader)
    {
      assert reader.log.history[at.t..at.r + 1] == h[at.t..at.r] + [reader.log.history[at.r]];
    }

    /** This consumer and its reader are in state `s` of the handover, at the head of the sending loop. */
    ghost predicate Shows(s: H.State<M>, reader: CyclicLogReader<Event<M>>, t: int, signals: nat)
      reads this, reader, reader.log
    {
      && Follows(s, reader.View(), t, signals) && H.Sound(s, t) && s.sender == H.Looping
      && s.sending == sending && s.passthrough == passthrough && s.received == received
    }

    /** There is no lock on the log but the reader's. */
    ghost predicate Loose(reader: CyclicLogReader<Event<M>>)
      reads reader, reader.log
    {
      reader.log.chain == if reader.lock == null then [] else [reader.lock]
    }

    /** The turns made so far are `steps` of the handover from state `s`, as long as the numbers of the
        events in the log increase. */
    ghost predicate Sent(s: H.State<M>, steps: seq<H.Step<M>>, reader: CyclicLogReader<Event<M>>,
                         t: int, signals: nat)
      reads this, reader, reader.log
    {
      Increasing(reader.log.history) ==> Shows(H.Run(s, steps), reader, t, signals)
    }

    /** The same turn as steps of the handover, if `showed` tells that it follows one so far. */
    method SendTurn(reader: CyclicLogReader<Event<M>>, batch: seq<Event<M>>, ghost at: Cursor<M>,
                    ghost showed: bool, ghost s: H.State<M>, ghost steps: seq<H.Step<M>>, ghost signals: nat)
      requires sending && InLoop(reader, at)
      requires showed ==> Sent(s, steps, reader, at.t, signals)
      modifies this`passthrough, this`sending, this`received, reader, reader.log, reader.log.chain
      ensures InLoop(reader, Advanced(at)) && Loose(reader) && (reader.lock == null || fresh(reader.lock))
      ensures at.r < |reader.log.history|
      ensures |reader.log.history| <= |old(reader.log.history)| + |batch|
      ensures showed ==> Sent(s, steps + TurnSteps(batch), reader, at.t, signals)
    {
      ghost var u := H.Run(s, steps);
      TurnStarts(reader, at, u, signals);
      ghost var h1, sys := reader.log.history, reader.View();
      hide InLoop, CyclicLogReader.View, Follows, H.Sound, TurnSteps, Increasing, PullOnRing;
      SendOne(reader, batch, at);
      if showed && Increasing(reader.log.history) {
        IncreasingBefore(h1, reader.log.history);
        assert reader.View().history == reader.log.history;
        TurnFollows(u, sys, batch, at.t, signals);
        RunJoins(s, steps, TurnSteps(batch));
      }
    }

    lemma TurnStarts(reader: CyclicLogReader<Event<M>>, at: Cursor<M>, s: H.State<M>, signals: nat)
      requires sending && InLoop(reader, at)
      ensures reader.View().lock.Some? && reader.View().hand.None? && reader.lock != null
      ensures Loose(reader) && 0 <= at.r <= |reader.log.history|
      ensures Shows(s, reader, at.t, signals) ==> s.feed.next == at.r
    {
    }

    /** Sends records until the reader is exhausted. With a writer that makes finitely many writes,
        `writer[k]` during the k-th pull, the loop ends, and has sent exactly the events from the
        reader's position on, in order. Its turns, and a last look whether to go on, are `steps` of the
        handover. */
    method SendMessages(reader: CyclicLogReader<Event<M>>, writer: seq<seq<Event<M>>>, ghost t: int,
                        ghost s: H.State<M>, ghost signals: nat)
      returns (ghost steps: seq<H.Step<M>>)
      requires sending && InLoop(reader, Cursor(reader.log.history, t, t))
      modifies this`passthrough, this`sending, this`received, reader, reader.log, reader.log.chain
      ensures !sending && InLoop(reader, Cursor(old(reader.log.history), t, |reader.log.history|))
      ensures Increasing(reader.log.history) && old(Shows(s, reader, t, signals)) ==>
                ShowsEnd(H.Run(s, steps), reader)
    {
      ghost var at := Cursor(reader.log.history, t, t);
      steps := [];
      TurnStarts(reader, at, s, signals);
      ghost var showed := Sent(s, steps, reader, t, signals);
      assert Shows(s, reader, t, signals) ==> showed;
      hide InLoop, Shows, ShowsEnd, Sent, TurnSteps, Increasing;
      var k := 0;
      while sending
        invariant 0 <= k <= |writer| && InLoop(reader, at) && at == Cursor(old(reader.log.history), t, at.r)
        invariant reader.lock == old(reader.lock) || reader.lock == null || fresh(reader.lock)
        invariant showed ==> Sent(s, steps, reader, t, signals)
        invariant Loose(reader) && 0 <= at.r <= |reader.log.history|
        decreases TotalLength(writer[k..]) + |reader.log.history| - at.r
      {
        var batch := if k < |writer| then writer[k] else [];
        SendTurn(reader, batch, at, showed, s, steps, signals);
        steps := steps + TurnSteps(batch);
        at := Advanced(at);
        TotalLengthFrom(writer, k);
        k := if k < |writer| then k + 1 else k;
      }
      LoopEnds(reader, at);
      if showed {
        LastLook(s, steps, reader, t, signals);
      }
      steps := steps + [H.SenderRead];
    }

    lemma LoopStarts(reader: CyclicLogReader<Event<M>>, t: int)
      requires reader.Valid() && reader.hasClient && reader.hand == None && Positioned(reader.View(), t)
      requires sending && !passthrough && received == [] && reader.pulled == []
      ensures InLoop(reader, Cursor(reader.log.history, t, t))
      ensures reader.lock != null && reader.log.chain == [reader.lock]
      ensures t <= |reader.log.history|
    {
    }

    lemma LoopEnds(reader: CyclicLogReader<Event<M>>, at: Cursor<M>)
      requires InLoop(reader, at) && !sending
      ensures passthrough && reader.Valid() && reader.lock == null && reader.log.chain == []
      ensures at.r == |reader.log.history| && at.start <= reader.log.history
      ensures 0 <= at.t <= |reader.log.history| && received == reader.log.history[at.t..]
    {
    }

    /** The sending loop has ended in state `s` of the handover. */
    ghost predicate ShowsEnd(s: H.State<M>, reader: CyclicLogReader<Event<M>>)
      reads this`sending, this`passthrough, this`received, reader.log`history
    {
      && s.sender == H.Stopped && s.feed.history == reader.log.history
      && s.sending == sending && s.passthrough == passthrough && s.received == received
    }

    lemma LastLook(s: H.State<M>, steps: seq<H.Step<M>>, reader: CyclicLogReader<Event<M>>, t: int, signals: nat)
      requires Sent(s, steps, reader, t, signals) && !sending
      ensures Increasing(reader.log.history) ==> ShowsEnd(H.Run(s, steps + [H.SenderRead]), reader)
    {
      RunOne(H.Run(s, steps), H.SenderRead);
      RunJoins(s, steps, [H.SenderRead]);
    }

    /** The sending thread: it looks for the first event numbered `lastEventId` or higher among those
        still in the log and replays from there; in any case it releases its lock. If there is no such
        event, live ones pass through only if nothing was written since the search took its last lock. A
        replay is a run of the handover from the state reached by the search, with any dispatches
        `pending`. */
    method RequestMessages(reader: CyclicLogReader<Event<M>>, moved: int -> int,
                           searching: nat -> seq<Event<M>>, sendingTurns: seq<seq<Event<M>>>,
                           ghost pending: set<int>)
      returns (found: bool, ghost target: int, ghost taken: int,
               ghost sought: H.State<M>, ghost steps: seq<H.Step<M>>)
      requires reader.Valid() && reader.hasClient && reader.hand == None && reader.lock == null
      requires reader.pulled == []
      requires Represents(reader.log.View(), reader.log.history) && Increasing(reader.log.history)
      requires sending && !passthrough && received == []
      modifies this, reader, reader.log, reader.log.chain
      ensures reader.Valid() && reader.lock == null && old(reader.log.history) <= reader.log.history
      ensures found ==>
                && old(WindowStart(reader.log)) <= target < |old(reader.log.history)|
                && old(reader.log.history)[target].id >= lastEventId
                && (forall i :: old(WindowStart(reader.log)) <= i < target ==>
                      old(reader.log.history)[i].id < lastEventId)
                && received == reader.log.history[target..] && passthrough
      ensures found && Increasing(reader.log.history)
              && (forall i :: i in pending ==> 0 <= i < |old(reader.log.history)|) ==>
                && H.Sought(sought, target) && sought.live.pending == pending
                && ShowsEnd(H.Run(sought, steps), reader)
      ensures !found ==>
                && (forall i :: old(WindowStart(reader.log)) <= i < |old(reader.log.history)| ==>
                      old(reader.log.history)[i].id < lastEventId)
                && received == []
                && taken == FailingLock(reader.log.maxRecords, |old(reader.log.history)|, searching).taken
                && |reader.log.history|
                   == WrittenAtFailure(reader.log.maxRecords, |old(reader.log.history)|, searching)
                && (passthrough <==> taken == |reader.log.history|)
                && (passthrough <==> KeptOut(reader.log.maxRecords, |old(reader.log.history)|, searching))
    {
      hide *;
      SearchReady(reader, lastEventId);
      ghost var h, lo, signals := reader.log.history, WindowStart(reader.log), reader.signals;
      var notified := reader.notified;
      ghost var turns;
      found, target, taken, turns := reader.Seek(EventsFrom(lastEventId), moved, searching);
      if reader.notified > notified {
        ReaderExhausted();
      }
      if found {
        TargetOutcome(h, lo, lastEventId, target);
        sought, steps := Replay(reader, sendingTurns, target, pending);
      } else {
        Seen(reader);
        VainOutcome(h, lo, lastEventId, searching, reader.View(), taken, signals);
        sought, steps := SoughtState(reader, target, pending), [];
      }
      reader.Close();
    }

    lemma SearchReady(reader: CyclicLogReader<Event<M>>, id: int)
      requires reader.Valid() && Represents(reader.log.View(), reader.log.history)
      requires Increasing(reader.log.history) && reader.lock == null
      ensures reader.log.maxRecords > 0 && reader.log.chain == []
      ensures 0 <= WindowStart(reader.log) <= |reader.log.history|
      ensures SortedFrom(reader.log.history, WindowStart(reader.log), EventsFrom<M>(id))
    {
    }

    lemma Seen(reader: CyclicLogReader<Event<M>>)
      ensures reader.View().log.maxRecords == reader.log.maxRecords
      ensures reader.View().history == reader.log.history && reader.View().signals == reader.signals
    {
    }

    /** After a successful search. */
    method Replay(reader: CyclicLogReader<Event<M>>, turns: seq<seq<Event<M>>>, ghost target: int,
                  ghost pending: set<int>)
      returns (ghost sought: H.State<M>, ghost steps: seq<H.Step<M>>)
      requires reader.Valid() && reader.hasClient && reader.hand == None && Positioned(reader.View(), target)
      requires sending && !passthrough && received == [] && reader.pulled == []
      modifies this`passthrough, this`sending, this`received, reader, reader.log, reader.log.chain
      ensures reader.Valid() && reader.lock == null && reader.log.chain == []
      ensures old(reader.log.history) <= reader.log.history && passthrough
      ensures 0 <= target <= |reader.log.history| && received == reader.log.history[target..]
      ensures Increasing(reader.log.history) && (forall i :: i in pending ==> 0 <= i < |old(reader.log.history)|) ==>
                && H.Sought(sought, target) && sought.live.pending == pending
                && ShowsEnd(H.Run(sought, steps), reader)
    {
      LoopStarts(reader, target);
      ghost var h, signals := reader.log.history, reader.signals;
      sought := SoughtState(reader, target, pending);
      if Increasing(h) && forall i :: i in pending ==> 0 <= i < |h| {
        SoughtShows(reader, target, pending);
      }
      hide InLoop, Shows, ShowsEnd, Increasing, Positioned, CyclicLogReader.View, CyclicLogReader.Valid, H.Sought;
      steps := SendMessages(reader, turns, target, sought, signals);
      IncreasingBefore(h, reader.log.history);
      LoopEnds(reader, Cursor(h, target, |reader.log.history|));
    }

    /** The state of the handover after a successful search to event number `target`. */
    ghost function SoughtState(reader: CyclicLogReader<Event<M>>, target: int, pending: set<int>): H.State<M>
      reads reader, reader.log
    {
      H.State(FeedOf(reader.View(), target), false, true, H.Looping, H.Live(pending, {}, {}, {}), [])
    }

    lemma SoughtShows(reader: CyclicLogReader<Event<M>>, target: int, pending: set<int>)
      requires Positioned(reader.View(), target) && reader.pulled == []
      requires sending && !passthrough && received == []
      requires Increasing(reader.log.history)
      requires forall i :: i in pending ==> 0 <= i < |reader.log.history|
      ensures H.Sought(SoughtState(reader, target, pending), target)
      ensures Shows(SoughtState(reader, target, pending), reader, target, reader.signals)
    {
      H.RunFromSought(SoughtState(reader, target, pending), [], target);
    }
  }

  lemma TargetOutcome<M>(h: seq<Event<M>>, lo: int, id: int, target: int)
    requires IsTarget(h, lo, EventsFrom<M>(id), target)
    ensures 0 <= lo <= target < |h| && h[target].id >= id
    ensures forall i :: lo <= i < target ==> h[i].id < id
  {
  }

  lemma VainOutcome<M>(h: seq<Event<M>>, lo: int, id: int, writer: nat -> seq<Event<M>>,
                       t: System<Event<M>>, taken: int, signals: nat)
    requires t.log.maxRecords > 0 && AllSmaller(h, lo, EventsFrom<M>(id)) && InVain(h, writer, t, taken, signals)
    ensures forall i :: 0 <= lo <= i < |h| ==> h[i].id < id
    ensures taken == FailingLock(t.log.maxRecords, |h|, writer).taken
    ensures |t.history| == WrittenAtFailure(t.log.maxRecords, |h|, writer)
    ensures t.signals == signals + 1 <==> taken == |t.history|
    ensures t.signals == signals + 1 <==> KeptOut(t.log.maxRecords, |h|, writer)
    ensures t.signals == signals || t.signals == signals + 1
  {
  }

  lemma IncreasingBefore<M>(before: seq<Event<M>>, after: seq<Event<M>>)
    requires before <= after
    ensures Increasing(after) ==> Increasing(before)
  {
  }
}
