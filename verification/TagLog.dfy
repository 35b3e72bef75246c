/**
 The log of tag events: a cyclic log whose records carry increasing event numbers. Besides the
 log's position file there is a file with the number of the last event.
 */
module TagLogs {
  import opened Ring
  import opened Wrappers
  import opened CyclicLogSpec
  import opened CyclicLogs
  import opened CyclicLogReaders

  datatype Message<M> = Message(appeared: bool, content: M)

  datatype Event<M> = Event(id: int, message: Message<M>)

  /** Which messages are logged, and which contents fit a record. */
  datatype Config<!M> = Config(logAppearance: bool, logDisappearance: bool, fits: M -> bool)

  predicate Logged<M>(c: Config<M>, m: Message<M>) {
    if m.appeared then c.logAppearance else c.logDisappearance
  }

  // ---------------------------------------------------------------- as a value

  datatype TagState<M> = TagState(
    log: LogState<Event<M>>,
    storedPosition: Option<int>,
    storedId: Option<int>,
    lastId: int,
    history: seq<Event<M>>
  )

  datatype Step<M> = Log(message: Message<M>) | Reopen | Lock(region: Region) | Unlock(i: nat)

  function Created<M>(recordSize: int, maxRecords: int): TagState<M> {
    TagState(LogState(recordSize, maxRecords, [], 0, [], Region(0, 0)), None, None, 0, [])
  }

  /** A number is spent even on an event that then turns out not to fit its record. */
  function LogEvent<M>(c: Config<M>, t: TagState<M>, m: Message<M>): TagState<M> {
    if !Logged(c, m) then t
    else if !c.fits(m.content) then t.(lastId := t.lastId + 1)
    else if !WellPlaced(t.log) || !CanWrite(t.log) then t
    else
      var event := Event(t.lastId + 1, m);
      var log := WriteRecord(t.log, event);
      TagState(log, Some(log.position), Some(event.id), event.id, t.history + [event])
  }

  /** Closing and opening the three files again, with the same record size and capacity. */
  function Reopened<M>(t: TagState<M>): TagState<M> {
    var file := FileReopened(t.log.file, t.storedPosition, t.log.recordSize, t.log.maxRecords);
    var position :=
      if t.storedPosition.Some? && t.storedPosition.value < MaxSize(t.log)
         && t.storedPosition.value <= |t.log.file| * t.log.recordSize
      then t.storedPosition.value else 0;
    t.(log := t.log.(file := file, position := position, locks := []),
       lastId := if t.storedId.None? then 0 else t.storedId.value)
  }

  function Next<M>(c: Config<M>, t: TagState<M>, step: Step<M>): TagState<M> {
    match step
    case Log(m) => LogEvent(c, t, m)
    case Reopen => Reopened(t)
    case Lock(g) => t.(log := AddLock(t.log, g))
    case Unlock(i) => if i < |t.log.locks| then t.(log := RemoveLock(t.log, i)) else t
  }

  function Run<M>(c: Config<M>, t: TagState<M>, steps: seq<Step<M>>): TagState<M> {
    if steps == [] then t
    else Next(c, Run(c, t, steps[..|steps| - 1]), steps[|steps| - 1])
  }

  // ---------------------------------------------------------------- what every run keeps

  ghost predicate Increasing<M>(h: seq<Event<M>>) {
    forall i, j :: 0 <= i < j < |h| ==> h[i].id < h[j].id
  }

  ghost predicate Sound<M>(t: TagState<M>) {
    && Represents(t.log, t.history)
    && Increasing(t.history)
    && (if t.history == [] then t.storedPosition == None && t.storedId == None && t.lastId >= 0
        else && t.storedPosition == Some(t.log.position)
             && t.storedId == Some(t.history[|t.history| - 1].id)
             && t.lastId >= t.history[|t.history| - 1].id)
  }

  lemma LogKeeps<M>(c: Config<M>, t: TagState<M>, m: Message<M>)
    requires Sound(t)
    ensures Sound(LogEvent(c, t, m))
  {
    hide Represents, Increasing, WriteRecord, WellPlaced, CanWrite, Logged;
    var event := Event(t.lastId + 1, m);
    IncreasingWith(t.history, event);
    WriteAppends(t.log, t.history, event);
  }

  lemma IncreasingWith<M>(h: seq<Event<M>>, event: Event<M>)
    requires Increasing(h) && (h == [] || h[|h| - 1].id < event.id)
    ensures Increasing(h + [event])
  {
  }

  /** Locks are no part of what is kept. */
  lemma LocksKeep<M>(t: TagState<M>, locks: seq<Region>, bounds: Region)
    requires Sound(t)
    ensures Sound(t.(log := t.log.(locks := locks, bounds := bounds)))
  {
    hide Increasing, Keeps, Offset;
  }

  lemma ReopenKeeps<M>(t: TagState<M>)
    requires Sound(t)
    ensures Sound(Reopened(t)) && Reopened(t).history == t.history
    ensures Reopened(t).log.file == t.log.file && Reopened(t).log.position == t.log.position
  {
    var n, size := t.log.maxRecords, t.log.recordSize;
    OffsetNext(n, size, |t.history|);
    PositionInFile(t.log, t.history);
    Scale(size, |t.log.file|, |t.history| % n);
  }

  lemma NextKeeps<M>(c: Config<M>, t: TagState<M>, step: Step<M>)
    requires Sound(t)
    ensures Sound(Next(c, t, step))
    ensures Next(c, t, step).log.maxRecords == t.log.maxRecords
    ensures Next(c, t, step).log.recordSize == t.log.recordSize
  {
    hide Sound;
    match step
    case Log(m) => LogKeeps(c, t, m);
    case Reopen => ReopenKeeps(t);
    case Lock(g) => LocksKeep(t, AddLock(t.log, g).locks, AddLock(t.log, g).bounds);
    case Unlock(i) =>
      if i < |t.log.locks| {
        LocksKeep(t, RemoveLock(t.log, i).locks, RemoveLock(t.log, i).bounds);
      }
  }

  lemma {:induction false} RunKeeps<M>(c: Config<M>, t: TagState<M>, steps: seq<Step<M>>)
    requires Sound(t)
    ensures Sound(Run(c, t, steps))
    ensures Run(c, t, steps).log.maxRecords == t.log.maxRecords
    ensures Run(c, t, steps).log.recordSize == t.log.recordSize
  {
    hide Sound, Next;
    if steps != [] {
      RunKeeps(c, t, steps[..|steps| - 1]);
      NextKeeps(c, Run(c, t, steps[..|steps| - 1]), steps[|steps| - 1]);
    }
  }

  /** The filter that looks for the first event from a given number on. */
  function EventsFrom<M>(lastEventId: int): Event<M> -> int {
    (e: Event<M>) => if e.id >= lastEventId then 1 else -1
  }

  lemma SortedByNumber<M>(h: seq<Event<M>>, lo: int, lastEventId: int)
    requires Increasing(h)
    ensures SortedFrom(h, lo, EventsFrom<M>(lastEventId))
  {
  }

  lemma WindowInSlots<M>(t: TagState<M>)
    requires Sound(t)
    ensures var n, lo := t.log.maxRecords, |t.history| - WindowSize(t.log.maxRecords, |t.history|);
            && 0 <= lo <= |t.history|
            && WholeRegion(t.log) == Region(Offset(n, t.log.recordSize, lo),
                                            Offset(n, t.log.recordSize, |t.history|))
            && (forall i :: lo <= i < |t.history| ==>
                  0 <= i % n < |t.log.file| && t.log.file[i % n] == t.history[i])
  {
    hide Increasing, Offset, WholeRegion;
    WholeRegionIsWindow(t.log, t.history);
  }

  /** After any run of logging, locking and reopening on a new log, the region `lock()` takes is
      exactly the newest `WindowSize` events, each still in its slot, with increasing numbers: so a
      search for any event number runs over a sorted window. */
  lemma WindowIsSortedSuffix<M>(c: Config<M>, recordSize: int, maxRecords: int, steps: seq<Step<M>>,
                                lastEventId: int)
    requires recordSize > 0 && maxRecords > 0
    ensures var t := Run(c, Created(recordSize, maxRecords), steps);
            var lo := |t.history| - WindowSize(maxRecords, |t.history|);
            && 0 <= lo <= |t.history|
            && WholeRegion(t.log) == Region(Offset(maxRecords, recordSize, lo),
                                            Offset(maxRecords, recordSize, |t.history|))
            && (forall i :: lo <= i < |t.history| ==>
                  0 <= i % maxRecords < |t.log.file| && t.log.file[i % maxRecords] == t.history[i])
            && Increasing(t.history)
            && SortedFrom(t.history, lo, EventsFrom<M>(lastEventId))
  {
    hide *;
    var t := Run(c, Created(recordSize, maxRecords), steps);
    RunFromCreated(c, recordSize, maxRecords, steps);
    WindowInSlots(t);
    SortedByNumber(t.history, |t.history| - WindowSize(maxRecords, |t.history|), lastEventId);
  }

  lemma RunFromCreated<M>(c: Config<M>, recordSize: int, maxRecords: int, steps: seq<Step<M>>)
    requires recordSize > 0 && maxRecords > 0
    ensures var t := Run(c, Created(recordSize, maxRecords), steps);
            && Sound(t) && Increasing(t.history)
            && t.log.recordSize == recordSize && t.log.maxRecords == maxRecords
  {
    hide Run, Increasing;
    CreatedIsSound<M>(recordSize, maxRecords);
    RunKeeps(c, Created(recordSize, maxRecords), steps);
  }

  lemma CreatedIsSound<M>(recordSize: int, maxRecords: int)
    requires recordSize > 0 && maxRecords > 0
    ensures Sound(Created<M>(recordSize, maxRecords))
  {
    assert Created<M>(recordSize, maxRecords).log.position == Offset(maxRecords, recordSize, 0);
  }

  // ---------------------------------------------------------------- the numbers of the events

  /** Whether a message is to be logged, by its kind. */
  ghost predicate Wanted<M>(c: Config<M>, m: Message<M>) {
    (m.appeared && c.logAppearance) || (!m.appeared && c.logDisappearance)
  }

  /** How many messages were to be logged and did not fit since the latest event or the latest reopening. */
  ghost function Misfits<M>(c: Config<M>, t: TagState<M>, steps: seq<Step<M>>): nat {
    if steps == [] then 0
    else
      var before, step := steps[..|steps| - 1], steps[|steps| - 1];
      match step
      case Log(m) =>
        if Wanted(c, m) && !c.fits(m.content) then Misfits(c, t, before) + 1
        else if Run(c, t, before).history != Run(c, t, steps).history then 0
        else Misfits(c, t, before)
      case Reopen => 0
      case _ => Misfits(c, t, before)
  }

  /** The number of the newest event, 0 if there is none. */
  ghost function NewestId<M>(h: seq<Event<M>>): int {
    if h == [] then 0 else h[|h| - 1].id
  }

  lemma {:induction false} LastIdCounts<M>(c: Config<M>, recordSize: int, maxRecords: int, steps: seq<Step<M>>)
    requires recordSize > 0 && maxRecords > 0
    ensures var t0 := Created<M>(recordSize, maxRecords);
            Run(c, t0, steps).lastId == NewestId(Run(c, t0, steps).history) + Misfits(c, t0, steps)
  {
    hide Represents, Increasing, Reopened, WriteRecord, CanWrite, WellPlaced, AddLock, RemoveLock;
    if steps != [] {
      var before, t0 := steps[..|steps| - 1], Created<M>(recordSize, maxRecords);
      LastIdCounts(c, recordSize, maxRecords, before);
      RunFromCreated(c, recordSize, maxRecords, before);
      ReopenedId(Run(c, t0, before));
    }
  }

  lemma ReopenedId<M>(t: TagState<M>)
    requires Sound(t)
    ensures Reopened(t).lastId == NewestId(t.history) && Reopened(t).history == t.history
  {
    hide Represents, Increasing, FileReopened;
  }

  /** Over any run on a new log, reopenings included: a message is logged exactly if its kind is wanted, it
      fits a record and the writer need not wait, and its number is that of the event before it plus one,
      plus one for each misfit in between that was not forgotten by a reopening. */
  lemma NumbersExact<M>(c: Config<M>, recordSize: int, maxRecords: int, steps: seq<Step<M>>, m: Message<M>)
    requires recordSize > 0 && maxRecords > 0
    ensures var t0 := Created<M>(recordSize, maxRecords);
            var t, u := Run(c, t0, steps), Run(c, t0, steps + [Log(m)]);
            u.history == if Wanted(c, m) && c.fits(m.content) && CanWrite(t.log)
                         then t.history + [Event(NewestId(t.history) + 1 + Misfits(c, t0, steps), m)]
                         else t.history
  {
    hide Increasing, Reopened, WriteRecord, CanWrite, AddLock, RemoveLock, Misfits;
    var t0 := Created<M>(recordSize, maxRecords);
    assert (steps + [Log(m)])[..|steps|] == steps;
    LastIdCounts(c, recordSize, maxRecords, steps);
    RunFromCreated(c, recordSize, maxRecords, steps);
    SoundIsPlaced(Run(c, t0, steps));
  }

  lemma SoundIsPlaced<M>(t: TagState<M>)
    requires Sound(t)
    ensures WellPlaced(t.log)
  {
    PositionInFile(t.log, t.history);
  }

  /** So if every message to be logged fits, the events are numbered from 1 on without a gap, whatever
      reopenings lie between. */
  lemma {:induction false} NumbersAreGapless<M>(c: Config<M>, recordSize: int, maxRecords: int, steps: seq<Step<M>>)
    requires recordSize > 0 && maxRecords > 0
    requires forall j :: 0 <= j < |steps| && steps[j].Log? && Wanted(c, steps[j].message) ==>
               c.fits(steps[j].message.content)
    ensures var h := Run(c, Created<M>(recordSize, maxRecords), steps).history;
            forall k :: 0 <= k < |h| ==> h[k].id == k + 1
    ensures Misfits(c, Created<M>(recordSize, maxRecords), steps) == 0
  {
    hide Reopened, WriteRecord, CanWrite, WellPlaced, AddLock, RemoveLock;
    if steps != [] {
      var before, step := steps[..|steps| - 1], steps[|steps| - 1];
      NumbersAreGapless(c, recordSize, maxRecords, before);
      assert step == steps[|steps| - 1];
      if step.Log? {
        NumbersExact(c, recordSize, maxRecords, before, step.message);
        assert before + [step] == steps;
      } else {
        RunFromCreated(c, recordSize, maxRecords, before);
        ReopenedId(Run(c, Created(recordSize, maxRecords), before));
      }
    }
  }

  // ---------------------------------------------------------------- as an object

  class TagLog<M> {
    const config: Config<M>
    const log: CyclicLog<Event<M>>
    var storedId: Option<int>
    var lastId: int

    ghost predicate Valid()
      reads this, log, log.chain
    {
      log.Valid()
    }

    ghost function View(): TagState<M>
      reads this, log
    {
      TagState(log.View(), log.storedPosition, storedId, lastId, log.history)
    }

    constructor (config: Config<M>, recordSize: int, maxRecords: int, file: seq<Event<M>>,
                 storedPosition: Option<int>, storedId: Option<int>, ghost before: TagState<M>)
      requires recordSize > 0 && maxRecords > 0
      requires storedPosition.Some? ==> 0 <= storedPosition.value
      requires before.log.recordSize == recordSize && before.log.maxRecords == maxRecords
               && before.log.file == file && before.storedPosition == storedPosition
               && before.storedId == storedId
      ensures this.config == config
      ensures |log.file| <= maxRecords && log.position % recordSize == 0 ==> Valid()
      ensures View() == Reopened(before).(log := Reopened(before).log.(bounds := View().log.bounds))
      ensures Sound(before) ==> lastId == NewestId(before.history)
    {
      this.config := config;
      this.log := new CyclicLog(recordSize, maxRecords, file, storedPosition, before.history);
      this.storedId := storedId;
      this.lastId := if storedId.None? then 0 else storedId.value;
      new;
      if Sound(before) {
        ReopenedId(before);
      }
    }

    /** One attempt to log a message; `done` is false while the writer has to wait. A message that
        is not to be logged is handed on without a number; one that does not fit is an error. */
    method LogMessage(message: Message<M>) returns (done: bool, result: Result<Option<Event<M>>, ()>)
      requires Valid()
      modifies this`lastId, this`storedId, log`file, log`position, log`storedPosition, log`history
      ensures Valid() && View() == LogEvent(config, old(View()), message)
      ensures done <==> (Logged(config, message) && config.fits(message.content) ==>
                           old(CanWrite(log.View())))
      ensures !Logged(config, message) ==> result == Ok(None)
      ensures Logged(config, message) && !config.fits(message.content) ==> result == Err(())
      ensures Logged(config, message) && config.fits(message.content) && done ==>
                result == Ok(Some(Event(lastId, message))) && lastId == old(lastId) + 1
                && log.history == old(log.history) + [Event(lastId, message)]
    {
      if message.appeared && !config.logAppearance {
        return true, Ok(None);
      }
      if !message.appeared && !config.logDisappearance {
        return true, Ok(None);
      }
      if !config.fits(message.content) {
        lastId := lastId + 1;
        return true, Err(());
      }
      var event := Event(lastId + 1, message);
      done := log.TryWrite(event);
      if done {
        lastId := event.id;
        storedId := Some(event.id);
      }
      result := Ok(Some(event));
    }
  }
}
