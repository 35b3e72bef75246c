/**
 The reader of a cyclic log, seen from outside: an ever growing history with a cursor in it. The
 ring, its positions and its locks are gone; what they do is shown to be just this.
 */
module Feeds {
  import opened Wrappers
  import opened CyclicLogSpec
  import opened CyclicLogReaderSpec

  /** `next` is the number of the next record to be returned, `holding` tells that it was read
      already, and `open` that the reader was not exhausted yet. */
  datatype Feed<T> = Feed(history: seq<T>, next: int, holding: bool, open: bool, capacity: int)

  function Advance<T>(f: Feed<T>, step: Step<T>): Feed<T> {
    match step
    case Write(x) =>
      if f.open && |f.history| >= f.next + f.capacity then f else f.(history := f.history + [x])
    case Read => if f.open then f.(holding := true) else f
    case Check =>
      if f.open && f.holding then f.(next := f.next + 1, holding := false, open := f.next + 1 < |f.history|)
      else f
  }

  function AdvanceAll<T>(f: Feed<T>, steps: seq<Step<T>>): Feed<T> {
    if steps == [] then f else Advance(AdvanceAll(f, steps[..|steps| - 1]), steps[|steps| - 1])
  }

  function FeedOf<T>(s: System<T>, r0: int): Feed<T> {
    Feed(s.history, r0 + |s.pulled|, s.hand.Some?, s.lock.Some?, s.log.maxRecords)
  }

  lemma WriteRefines<T>(s: System<T>, x: T, r0: int, signals0: nat)
    requires Reading(s, r0, signals0)
    ensures FeedOf(WriteStep(s, x), r0) == Advance(FeedOf(s, r0), Write(x))
    ensures Next(s, Write(x)) == WriteStep(s, x)
  {
    if s.lock.Some? {
      var r := r0 + |s.pulled|;
      var taken :| LockedFrom(s, r, taken);
      WriteUnderLock(s, r, taken, x);
    } else {
      WriteUnlocked(s, x);
    }
  }

  lemma ReadRefines<T>(s: System<T>, r0: int, signals0: nat)
    requires Reading(s, r0, signals0)
    ensures FeedOf(Next(s, Read), r0) == Advance(FeedOf(s, r0), Read)
  {
    if s.lock.Some? && s.hand.None? {
      ReadReads(s, r0, signals0);
    }
  }

  lemma CheckRefines<T>(s: System<T>, r0: int, signals0: nat)
    requires Reading(s, r0, signals0)
    ensures FeedOf(Next(s, Check), r0) == Advance(FeedOf(s, r0), Check)
  {
    if s.lock.Some? && s.hand.Some? {
      CheckIsExact(s, r0 + |s.pulled|);
    }
  }

  /** The reader on the ring behaves, step by step, as the cursor in the history. */
  lemma {:induction false} RingRefinesFeed<T>(s: System<T>, steps: seq<Step<T>>, r0: int, signals0: nat)
    requires Reading(s, r0, signals0)
    ensures FeedOf(Run(s, steps), r0) == AdvanceAll(FeedOf(s, r0), steps)
    ensures var f := AdvanceAll(FeedOf(s, r0), steps);
            r0 <= f.next <= |f.history| && Run(s, steps).pulled == f.history[r0..f.next]
  {
    hide Reading, Next, Advance, WriteStep;
    RunReads(s, steps, r0, signals0);
    if steps != [] {
      var before := Run(s, steps[..|steps| - 1]);
      RingRefinesFeed(s, steps[..|steps| - 1], r0, signals0);
      RunReads(s, steps[..|steps| - 1], r0, signals0);
      match steps[|steps| - 1]
      case Write(x) => WriteRefines(before, x, r0, signals0);
      case Read => ReadRefines(before, r0, signals0);
      case Check => CheckRefines(before, r0, signals0);
    }
  }
}
