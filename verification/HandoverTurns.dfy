/** One turn of the sending loop as steps of the handover. */
module HandoverTurns {
  import opened CyclicLogSpec
  import opened ReaderSpec = CyclicLogReaderSpec
  import opened CyclicLogReaders
  import opened Feeds
  import opened TagLogs
  import H = Handover

  /** The events attempted by the writer during a turn. */
  function Writes<M>(batch: seq<Event<M>>): seq<H.Step<M>> {
    if batch == [] then [] else Writes(batch[..|batch| - 1]) + [H.WriteEvent(batch[|batch| - 1])]
  }

  /** The record is read, the writer is let in, and the check for exhaustion follows. */
  function PullOnRing<M>(sys: System<Event<M>>, batch: seq<Event<M>>): System<Event<M>> {
    ReaderSpec.Next(WriteAll(ReaderSpec.Next(sys, Read), batch), Check)
  }

  ghost function TurnSteps<M>(batch: seq<Event<M>>): seq<H.Step<M>> {
    [H.SenderRead] + Writes(batch) + [H.SenderCheck, H.SenderDeliver]
  }

  /** A state of the handover that shows where the reader is. */
  ghost predicate Follows<M>(s: H.State<M>, sys: System<Event<M>>, t: int, signals: nat) {
    Reading(sys, t, signals) && FeedOf(sys, t) == s.feed
  }

  lemma {:induction false} RunJoins<M>(s: H.State<M>, a: seq<H.Step<M>>, b: seq<H.Step<M>>)
    ensures H.Run(s, a + b) == H.Run(H.Run(s, a), b)
  {
    if b == [] {
      assert a + b == a;
    } else {
      assert (a + b)[..|a + b| - 1] == a + b[..|b| - 1];
      RunJoins(s, a, b[..|b| - 1]);
    }
  }

  lemma RunOne<M>(s: H.State<M>, step: H.Step<M>)
    ensures H.Run(s, [step]) == H.Next(s, step)
  {
    assert [step][..0] == [];
    assert H.Run(s, []) == s;
  }

  /** The writer does the same to both, as long as the numbers of the events increase. */
  lemma {:induction false} WritesFollow<M>(s: H.State<M>, sys: System<Event<M>>, batch: seq<Event<M>>,
                                           t: int, signals: nat)
    requires Follows(s, sys, t, signals) && Increasing(WriteAll(sys, batch).history)
    ensures var u := H.Run(s, Writes(batch));
            && Follows(u, WriteAll(sys, batch), t, signals) && sys.history <= WriteAll(sys, batch).history
            && u == s.(feed := u.feed, live := u.live) && u.feed == s.feed.(history := u.feed.history)
  {
    hide Reading, WriteStep, FeedOf, H.Next;
    if batch != [] {
      var before, e := WriteAll(sys, batch[..|batch| - 1]), batch[|batch| - 1];
      WriteAllGrows(sys, batch[..|batch| - 1]);
      WriteFrame(before, e);
      WritesFollow(s, sys, batch[..|batch| - 1], t, signals);
      WriteFollows(H.Run(s, Writes(batch[..|batch| - 1])), before, e, t, signals);
      var w := Writes(batch);
      assert w[..|w| - 1] == Writes(batch[..|batch| - 1]);
    }
  }

  lemma WriteAllGrows<T>(sys: System<T>, records: seq<T>)
    ensures sys.history <= WriteAll(sys, records).history
  {
    if records != [] {
      WriteAllGrows(sys, records[..|records| - 1]);
      WriteFrame(WriteAll(sys, records[..|records| - 1]), records[|records| - 1]);
    }
  }

  lemma WriteFollows<M>(s: H.State<M>, sys: System<Event<M>>, e: Event<M>, t: int, signals: nat)
    requires Follows(s, sys, t, signals) && Increasing(WriteStep(sys, e).history)
    ensures var u := H.Next(s, H.WriteEvent(e));
            && Follows(u, WriteStep(sys, e), t, signals)
            && u == s.(feed := u.feed, live := u.live) && u.feed == s.feed.(history := u.feed.history)
  {
    hide Reading, WriteStep;
    WriteReads(sys, e, t, signals);
    WriteRefines(sys, e, t, signals);
  }

  /** A pull between whose two halves the writer is let in, and the delivery of the event pulled, are the
      steps of one turn: they lead to the same log, cursor and flags, and the subscriber receives the
      event at the cursor. */
  lemma TurnFollows<M>(s: H.State<M>, sys: System<Event<M>>, batch: seq<Event<M>>, t: int, signals: nat)
    requires Follows(s, sys, t, signals) && H.Sound(s, t)
    requires s.sender == H.Looping && s.sending && sys.lock.Some? && sys.hand.None?
    requires Increasing(PullOnRing(sys, batch).history)
    ensures var u := H.Run(s, TurnSteps(batch));
            && Follows(u, PullOnRing(sys, batch), t, signals) && H.Sound(u, t) && u.sender == H.Looping
            && s.feed.next < |u.feed.history| && u.received == s.received + [u.feed.history[s.feed.next]]
            && u.sending == !u.passthrough == PullOnRing(sys, batch).lock.Some?
  {
    var s1, sys1 := H.Next(s, H.SenderRead), ReaderSpec.Next(sys, Read);
    var sys2 := WriteAll(sys1, batch);
    var s2 := H.Run(s1, Writes(batch));
    ReadFollows(s, sys, t, signals);
    hide H.Sound, Follows, H.Next, H.Run, ReaderSpec.Next, WriteAll, Increasing, Writes;
    WriteAllGrows(sys1, batch);
    CheckKeepsHistory(sys2);
    WritesFollow(s1, sys1, batch, t, signals);
    RunJoins(s, [H.SenderRead], Writes(batch));
    RunOne(s, H.SenderRead);
    H.RunKeeps(s, [H.SenderRead] + Writes(batch), t);
    CheckFollows(s2, sys2, t, signals);
    RunJoins(s, [H.SenderRead] + Writes(batch), [H.SenderCheck, H.SenderDeliver]);
    RunTwo(s2, H.SenderCheck, H.SenderDeliver);
    H.RunKeeps(s, TurnSteps(batch), t);
  }

  lemma RunTwo<M>(s: H.State<M>, a: H.Step<M>, b: H.Step<M>)
    ensures H.Run(s, [a, b]) == H.Next(H.Next(s, a), b)
  {
    assert [a, b][..1] == [a];
    RunOne(s, a);
  }

  lemma CheckKeepsHistory<T>(sys: System<T>)
    ensures ReaderSpec.Next(sys, Check).history == sys.history
  {
  }

  lemma ReadFollows<M>(s: H.State<M>, sys: System<Event<M>>, t: int, signals: nat)
    requires Follows(s, sys, t, signals) && s.sender == H.Looping && s.sending
    requires sys.lock.Some? && sys.hand.None?
    ensures var u := H.Next(s, H.SenderRead);
            Follows(u, ReaderSpec.Next(sys, Read), t, signals) && u == s.(feed := u.feed)
            && u.feed.holding && u.feed.open
            && u.feed.next == s.feed.next
  {
    hide Reading;
    ReadReads(sys, t, signals);
    ReadRefines(sys, t, signals);
  }

  lemma CheckFollows<M>(s: H.State<M>, sys: System<Event<M>>, t: int, signals: nat)
    requires Follows(s, sys, t, signals) && H.Sound(s, t)
    requires s.sender == H.Looping && s.feed.holding && s.feed.open && s.sending
    ensures var u := H.Next(H.Next(s, H.SenderCheck), H.SenderDeliver);
            && Follows(u, ReaderSpec.Next(sys, Check), t, signals) && u.sender == H.Looping
            && s.feed.next < |u.feed.history| && u.received == s.received + [u.feed.history[s.feed.next]]
            && u.sending == !u.passthrough == ReaderSpec.Next(sys, Check).lock.Some?
  {
    hide Reading, ReaderSpec.Next;
    CheckReads(sys, t, signals);
    CheckRefines(sys, t, signals);
  }
}
