/**
 One reader and one writer on a cyclic log, as interleaved atomic steps. A step of the writer
 is one record; a pull of the reader is two steps, since the record is read outside the
 monitor and only the check for exhaustion is made inside it.
 */
module CyclicLogReaderSpec {
  import opened Ring
  import opened Wrappers
  import opened CyclicLogSpec

  datatype System<T> = System(
    log: LogState<T>,
    history: seq<T>,        // everything ever written, oldest first
    lock: Option<Region>,   // the reader's lock
    position: int,          // the reader's channel position
    hand: Option<T>,        // a record read but not yet returned by pull
    pulled: seq<T>,         // what pull has returned
    signals: nat            // how often the client was told that the reader is exhausted
  )

  datatype Step<T> = Write(record: T) | Read | Check

  // ---------------------------------------------------------------- steps

  function DropLock<T>(s: System<T>): System<T>
    requires s.log.locks != []
  {
    s.(log := RemoveLock(s.log, |s.log.locks| - 1), lock := None)
  }

  function TakeLock<T>(s: System<T>, g: Region): System<T> {
    s.(log := AddLock(s.log, g), lock := Some(g))
  }

  function RelockFrom<T>(s: System<T>, position: int): System<T>
    requires s.log.locks != []
  {
    TakeLock(DropLock(s), Region(position, s.log.position))
  }

  function CheckExhaust<T>(s: System<T>, position: int): System<T>
    requires s.log.locks != []
  {
    if position != s.log.position then RelockFrom(s, position)
    else var t := DropLock(s); t.(signals := t.signals + 1)
  }

  predicate Readable<T>(s: System<T>) {
    s.log.recordSize > 0 && 0 <= s.position / s.log.recordSize < |s.log.file|
  }

  function ReadRecord<T>(s: System<T>): System<T>
    requires Readable(s)
  {
    s.(hand := Some(s.log.file[s.position / s.log.recordSize]),
       position := NextPosition(s.position, s.log.recordSize, MaxSize(s.log)))
  }

  function WriteStep<T>(s: System<T>, x: T): System<T> {
    if WellPlaced(s.log) && CanWrite(s.log) then
      s.(log := WriteRecord(s.log, x), history := s.history + [x])
    else s
  }

  /** A step that is not enabled changes nothing: a blocked writer waits, a pull without a lock
      returns null. */
  function Next<T>(s: System<T>, step: Step<T>): System<T> {
    match step
    case Write(x) => WriteStep(s, x)
    case Read => if s.lock.Some? && s.hand.None? && Readable(s) then ReadRecord(s) else s
    case Check =>
      if s.lock.Some? && s.hand.Some? && s.log.locks != [] then
        var t := CheckExhaust(s, s.position);
        t.(pulled := s.pulled + [s.hand.value], hand := None)
      else s
  }

  function Run<T>(s: System<T>, steps: seq<Step<T>>): System<T> {
    if steps == [] then s
    else Next(Run(s, steps[..|steps| - 1]), steps[|steps| - 1])
  }

  // ---------------------------------------------------------------- where the reader is

  /** The reader's lock is the log's only one. It protects the records from number `r` on; it
      was taken when `taken` records had been written. */
  ghost predicate LockedFrom<T>(s: System<T>, r: int, taken: int) {
    && Represents(s.log, s.history)
    && 0 <= r < taken <= |s.history| <= r + s.log.maxRecords
    && var g := Region(Offset(s.log.maxRecords, s.log.recordSize, r),
                       Offset(s.log.maxRecords, s.log.recordSize, taken));
       s.lock == Some(g) && s.log.locks == [g] && s.log.bounds == g
  }

  /** The next pull reads record number `r`, which is protected. */
  ghost predicate Positioned<T>(s: System<T>, r: int) {
    && (exists taken :: LockedFrom(s, r, taken))
    && s.hand == None
    && s.position == Offset(s.log.maxRecords, s.log.recordSize, r)
  }

  /** Record number `r` was read, and is still protected. */
  ghost predicate Holding<T>(s: System<T>, r: int) {
    && (exists taken :: LockedFrom(s, r, taken))
    && s.hand == Some(s.history[r])
    && s.position == Offset(s.log.maxRecords, s.log.recordSize, r + 1)
  }

  ghost predicate Unlocked<T>(s: System<T>) {
    Represents(s.log, s.history) && s.lock == None && s.log.locks == []
  }

  // ---------------------------------------------------------------- what each step keeps

  /** While record `r` is protected, a write is let in exactly when the log is less than a full
      turn ahead of it, and the protection survives. */
  lemma WriteUnderLock<T>(s: System<T>, r: int, taken: int, x: T)
    requires LockedFrom(s, r, taken)
    ensures CanWrite(s.log) <==> |s.history| < r + s.log.maxRecords
    ensures WriteStep(s, x).history
         == if |s.history| < r + s.log.maxRecords then s.history + [x] else s.history
    ensures LockedFrom(WriteStep(s, x), r, taken)
  {
    GuardIsLogical(s.log.maxRecords, s.log.recordSize, r, taken, |s.history|);
    WriteAppends(s.log, s.history, x);
  }

  lemma WriteUnlocked<T>(s: System<T>, x: T)
    requires Unlocked(s)
    ensures Unlocked(WriteStep(s, x)) && WriteStep(s, x).history == s.history + [x]
  {
    WriteAppends(s.log, s.history, x);
  }

  lemma RelockKeeps<T>(s: System<T>, r: int, taken: int, from: int)
    requires LockedFrom(s, r, taken) && r <= from < |s.history|
    ensures LockedFrom(RelockFrom(s, Offset(s.log.maxRecords, s.log.recordSize, from)),
                       from, |s.history|)
  {
  }

  /** The slot under a protected record still holds it. */
  lemma ProtectedRecord<T>(s: System<T>, r: int, taken: int, i: int)
    requires LockedFrom(s, r, taken) && r <= i < |s.history|
    requires s.position == Offset(s.log.maxRecords, s.log.recordSize, i)
    ensures Readable(s) && s.log.file[s.position / s.log.recordSize] == s.history[i]
    ensures NextPosition(s.position, s.log.recordSize, MaxSize(s.log))
         == Offset(s.log.maxRecords, s.log.recordSize, i + 1)
  {
    OffsetNext(s.log.maxRecords, s.log.recordSize, i);
    assert s.history[i] == s.log.file[i % s.log.maxRecords];
  }

  lemma ReadHolds<T>(s: System<T>, r: int)
    requires Positioned(s, r)
    ensures Readable(s) && Holding(ReadRecord(s), r)
  {
    var taken :| LockedFrom(s, r, taken);
    ProtectedRecord(s, r, taken, r);
    assert LockedFrom(ReadRecord(s), r, taken);
  }

  /** Exhaustion is signalled exactly when the record in hand is the newest one of the log. */
  lemma CheckIsExact<T>(s: System<T>, r: int)
    requires Holding(s, r)
    ensures Next(s, Check).pulled == s.pulled + [s.history[r]]
    ensures r + 1 == |s.history| ==>
              Unlocked(Next(s, Check)) && Next(s, Check).signals == s.signals + 1
    ensures r + 1 < |s.history| ==>
              Positioned(Next(s, Check), r + 1) && Next(s, Check).signals == s.signals
    ensures Next(s, Check).history == s.history && Next(s, Check).hand == None
    ensures r < |s.history| && (Next(s, Check).lock == None <==> r + 1 == |s.history|)
  {
    var taken :| LockedFrom(s, r, taken);
    OffsetInjective(s.log.maxRecords, s.log.recordSize, r + 1, |s.history|);
    if r + 1 < |s.history| {
      RelockKeeps(s, r, taken, r + 1);
      assert LockedFrom(Next(s, Check), r + 1, |s.history|);
    }
  }

  // ---------------------------------------------------------------- whole runs

  /** The invariant of a run that started positioned at record `r0` with `signals0` signals. */
  ghost predicate Reading<T>(s: System<T>, r0: int, signals0: nat) {
    var r := r0 + |s.pulled|;
    && 0 <= r0 <= r <= |s.history|
    && s.pulled == s.history[r0..r]
    && (if s.lock.None? then Unlocked(s) && s.hand == None && s.signals == signals0 + 1
        else s.signals == signals0 && if s.hand.None? then Positioned(s, r) else Holding(s, r))
  }

  /** The reader never falls more than a full turn behind, and the writer waits just then. */
  lemma UnreadCount<T>(s: System<T>, r0: int, signals0: nat)
    requires Reading(s, r0, signals0) && s.lock.Some?
    ensures 1 <= |s.history| - (r0 + |s.pulled|) <= s.log.maxRecords
    ensures CanWrite(s.log) <==> |s.history| - (r0 + |s.pulled|) < s.log.maxRecords
  {
    var r := r0 + |s.pulled|;
    var taken :| LockedFrom(s, r, taken);
    GuardIsLogical(s.log.maxRecords, s.log.recordSize, r, taken, |s.history|);
  }

  lemma WriteFrame<T>(s: System<T>, x: T)
    ensures var t := WriteStep(s, x);
            && t == s.(log := t.log, history := t.history) && s.history <= t.history
            && t.log.maxRecords == s.log.maxRecords && t.log.recordSize == s.log.recordSize
  {
  }

  lemma LockedRange<T>(s: System<T>, r: int, taken: int)
    requires LockedFrom(s, r, taken)
    ensures 0 <= r < |s.history|
  {
  }

  lemma WriteReads<T>(s: System<T>, x: T, r0: int, signals0: nat)
    requires Reading(s, r0, signals0)
    ensures Reading(WriteStep(s, x), r0, signals0) && s.history <= WriteStep(s, x).history
  {
    WriteFrame(s, x);
    var t, r := WriteStep(s, x), r0 + |s.pulled|;
    hide WriteStep, LockedFrom, Unlocked, Offset;
    assert t.history[r0..r] == s.history[r0..r];
    if s.lock.None? {
      WriteUnlocked(s, x);
    } else {
      var taken :| LockedFrom(s, r, taken);
      WriteUnderLock(s, r, taken, x);
      LockedRange(s, r, taken);
      assert LockedFrom(t, r, taken);
    }
  }

  lemma ReadReads<T>(s: System<T>, r0: int, signals0: nat)
    requires Reading(s, r0, signals0) && s.lock.Some? && s.hand.None?
    ensures Readable(s) && Reading(ReadRecord(s), r0, signals0)
  {
    ReadHolds(s, r0 + |s.pulled|);
  }

  lemma CheckReads<T>(s: System<T>, r0: int, signals0: nat)
    requires Reading(s, r0, signals0) && s.lock.Some? && s.hand.Some?
    ensures Reading(Next(s, Check), r0, signals0) && Next(s, Check).history == s.history
    ensures Next(s, Check).signals
         == s.signals + if r0 + |s.pulled| + 1 == |s.history| then 1 else 0
  {
    hide Next, LockedFrom, Unlocked, Offset;
    CheckIsExact(s, r0 + |s.pulled|);
  }

  /** Every step keeps the invariant, and only a check that has caught up with the writer signals. */
  lemma NextReads<T>(s: System<T>, step: Step<T>, r0: int, signals0: nat)
    requires Reading(s, r0, signals0)
    ensures Reading(Next(s, step), r0, signals0) && s.history <= Next(s, step).history
    ensures Next(s, step).signals == s.signals
              + if step == Check && s.hand.Some? && r0 + |s.pulled| + 1 == |s.history| then 1 else 0
  {
    match step
    case Write(x) => WriteReads(s, x, r0, signals0);
    case Read =>
      if s.lock.Some? && s.hand.None? {
        ReadReads(s, r0, signals0);
      }
    case Check =>
      if s.lock.Some? && s.hand.Some? {
        CheckReads(s, r0, signals0);
      }
  }

  lemma {:induction false} RunReads<T>(s: System<T>, steps: seq<Step<T>>, r0: int, signals0: nat)
    requires Reading(s, r0, signals0)
    ensures Reading(Run(s, steps), r0, signals0) && s.history <= Run(s, steps).history
  {
    if steps != [] {
      RunReads(s, steps[..|steps| - 1], r0, signals0);
      NextReads(Run(s, steps[..|steps| - 1]), steps[|steps| - 1], r0, signals0);
    }
  }

  /** From a successful seek to record `r0`, over every interleaving of writes and pulls: the
      pulls return the records from `r0` on in the order written; while the reader is locked,
      between 1 and `maxRecords` records are unread and the writer waits just when it is the
      latter; the reader is unlocked once exhausted, and is so at most once. */
  lemma WholeRun<T>(s: System<T>, steps: seq<Step<T>>, r0: int)
    requires Positioned(s, r0) && s.pulled == []
    ensures var t := Run(s, steps);
            var r := r0 + |t.pulled|;
            && s.history <= t.history
            && r <= |t.history| && t.pulled == t.history[r0..r]
            && (t.lock.Some? ==>
                  && 1 <= |t.history| - r <= t.log.maxRecords
                  && (CanWrite(t.log) <==> |t.history| - r < t.log.maxRecords))
            && t.signals == s.signals + if t.lock.None? then 1 else 0
  {
    assert Reading(s, r0, s.signals);
    RunReads(s, steps, r0, s.signals);
    if Run(s, steps).lock.Some? {
      UnreadCount(Run(s, steps), r0, s.signals);
    }
  }

  /** In any such run, the signal is given by the step that returns the newest record of the log,
      and by no other step. */
  lemma SignalIffCaughtUp<T>(s: System<T>, steps: seq<Step<T>>, r0: int, k: int)
    requires Positioned(s, r0) && s.pulled == [] && 0 <= k < |steps|
    ensures var before, after := Run(s, steps[..k]), Run(s, steps[..k + 1]);
            after.signals > before.signals
            <==> before.lock.Some? && |after.pulled| == |before.pulled| + 1
                 && r0 + |after.pulled| == |after.history|
  {
    RunReads(s, steps[..k], r0, s.signals);
    var before := Run(s, steps[..k]);
    assert steps[..k + 1][..k] == steps[..k];
    NextReads(before, steps[k], r0, s.signals);
  }
}
