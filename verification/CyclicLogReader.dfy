/**
 The reader of a cyclic log: a binary search over the possibly wrapped window of records, and
 pulling records one by one. The writer is let in at every point where the source does not hold
 the log's monitor; what it attempts at its k-th turn is `writer(k)`, an arbitrary sequence.
 */
module CyclicLogReaders {
  import opened Ring
  import opened Wrappers
  import opened CyclicLogSpec
  import opened CyclicLogReaderSpec
  import opened CyclicLogs

  // ---------------------------------------------------------------- positions of the search

  /** The middle record of a region, None when there is not a whole record in it. */
  function Middle(start: int, end: int, recordSize: int, fileSize: int): Option<int>
    requires recordSize > 0
  {
    if start < end then
      if end - start < recordSize then None
      else Some(start + ((end - start) / recordSize / 2) * recordSize)
    else if fileSize < recordSize then None
    else
      var tail := fileSize - start;
      var mid := ((tail + end) / recordSize / 2) * recordSize;
      if mid < tail then Some(start + mid) else Some(mid - tail)
  }

  /** The position after `start`, -1 when that is `end`. */
  function NextRecord(start: int, end: int, recordSize: int, fileSize: int): int {
    if start == end then -1
    else
      var position := start + recordSize;
      if position == end then -1
      else if position + recordSize > fileSize then (if end == 0 then -1 else 0)
      else position
  }

  /** In a file of `n` slots into which `written` records were written, the region from record `a`
      up to record `b` has its middle at the record halfway between them. */
  lemma MiddleIsHalfway(n: int, size: int, a: int, b: int, written: int)
    requires n > 0 && size > 0 && 0 <= a < b <= written && b - a <= n
    ensures Middle(Offset(n, size, a), Offset(n, size, b), size, Min(written, n) * size)
         == Some(Offset(n, size, a + (b - a) / 2))
  {
    ModShift(n, a, b - a);
    ModShift(n, a, (b - a) / 2);
    if a % n < b % n {
      LinearMiddle(size, a % n, b % n);
    } else {
      if written < n {
        SmallMod(n, a);
        SmallMod(n, b);
      }
      WrappedMiddle(size, n, a % n, b % n);
    }
    Scale(size, a % n, b % n);
  }

  lemma LinearMiddle(size: int, p: int, q: int)
    requires size > 0 && p < q
    ensures p * size < q * size
    ensures forall fileSize ::
              Middle(p * size, q * size, size, fileSize) == Some((p + (q - p) / 2) * size)
  {
    Scale(size, p, q);
    HalfOf(size, p, q);
    Scale(size, p, (q - p) / 2);
  }

  lemma WrappedMiddle(size: int, n: int, p: int, q: int)
    requires size > 0 && 0 <= q <= p < n
    ensures p * size >= q * size
    ensures (var m := p + (n - p + q) / 2;
             Middle(p * size, q * size, size, n * size)
             == Some((if m < n then m else m - n) * size))
  {
    hide *;
    AroundTheEnd(size, n, p, q);
    FromTheEnd(size, n, p, (n - p + q) / 2);
    MiddleAround(p * size, q * size, size, n * size, n - p + q);
  }

  lemma AroundTheEnd(size: int, n: int, p: int, q: int)
    requires size > 0 && 0 <= q <= p < n
    ensures p * size >= q * size && n * size >= size && (n * size - p * size + q * size) / size == n - p + q
  {
    Scale(size, p, q);
    Scale(size, n, 1);
    Scale(size, n, p);
    Scale(size, n - p, q);
    Scale(size, n - p + q, 1);
  }

  lemma FromTheEnd(size: int, n: int, p: int, h: int)
    requires size > 0
    ensures h * size < n * size - p * size <==> p + h < n
    ensures p * size + h * size == (p + h) * size
    ensures h * size - (n * size - p * size) == (p + h - n) * size
  {
    Scale(size, n, p);
    Scale(size, h, n - p);
    Scale(size, p, h);
  }

  /** The middle of a wrapped region of `d` records, counted from the end of the file when it lies behind. */
  lemma MiddleAround(start: int, end: int, size: int, fileSize: int, d: int)
    requires size > 0 && end <= start && size <= fileSize && (fileSize - start + end) / size == d
    ensures Middle(start, end, size, fileSize)
         == Some(if d / 2 * size < fileSize - start then start + d / 2 * size else d / 2 * size - (fileSize - start))
  {
  }

  lemma HalfOf(size: int, p: int, q: int)
    requires size > 0 && p < q
    ensures q * size - p * size >= size
    ensures (q * size - p * size) / size == q - p
  {
    Scale(size, q, p);
    Scale(size, q - p, 0);
    Scale(size, 1, q - p);
    Scale(size, q - p, 1);
  }

  /** The record after number `m` of a region that ends with record `b`. */
  lemma NextRecordIsNext(n: int, size: int, m: int, b: int, written: int)
    requires n > 0 && size > 0 && 0 <= m < b <= written && (b - m < n || m + 1 == b)
    requires written >= n || b < n
    ensures NextRecord(Offset(n, size, m), Offset(n, size, b), size, Min(written, n) * size)
         == if m + 1 == b then -1 else Offset(n, size, m + 1)
  {
    var p, q := m % n, b % n;
    OffsetNext(n, size, m);
    ModShift(n, m, if m + 1 == b then 1 else b - m);
    ModShift(n, m, 1);
    Scale(size, p, q);
    Scale(size, q, p);
    Scale(size, p + 1, q);
    Scale(size, q, p + 1);
    Scale(size, q, 0);
    Scale(size, 0, q);
    Scale(size, n, q);
    Scale(size, q, n);
    Scale(size, Min(written, n), p + 2);
    Scale(size, p + 2, Min(written, n));
    if written < n {
      SmallMod(n, m);
      SmallMod(n, b);
    }
  }

  // ---------------------------------------------------------------- what a search looks for

  function Sign(x: int): int {
    if x < 0 then -1 else if x > 0 then 1 else 0
  }

  /** From record `lo` on the filter never falls back: records it calls smaller come first. */
  ghost predicate SortedFrom<T>(h: seq<T>, lo: int, filter: T -> int) {
    forall i, j :: 0 <= lo <= i < j < |h| ==> Sign(filter(h[i])) <= Sign(filter(h[j]))
  }

  /** Record `t` is not smaller, and no earlier record of the window is a better choice. */
  ghost predicate IsTarget<T>(h: seq<T>, lo: int, filter: T -> int, t: int) {
    && 0 <= lo <= t < |h|
    && filter(h[t]) >= 0
    && forall i :: lo <= i < t ==>
         filter(h[i]) < 0 || (filter(h[i]) == 0 && filter(h[t]) == 0)
  }

  /** The variables of the search, as file positions; `lastGreater` is negative until a record was
      met that is not smaller. */
  datatype Window = Window(start: int, end: int, lastGreater: int)

  /** What the search has established: `start` is record `a`, `end` is record `b`, all records
      before `a` are smaller, and `lastGreater` is `end` unless nothing greater was met. */
  ghost predicate Narrowed<T>(n: int, size: int, h: seq<T>, lo: int, filter: T -> int,
                              a: int, b: int, w: Window)
    requires n > 0
  {
    && 0 <= lo <= a < b <= |h| && b - a <= n
    && w.start == Offset(n, size, a) && w.end == Offset(n, size, b)
    && (forall i :: lo <= i < a ==> filter(h[i]) < 0)
    && if w.lastGreater < 0 then b == |h|
       else w.lastGreater == w.end && b < |h| && filter(h[b]) > 0
  }

  /** No record of the window is large enough. */
  ghost predicate AllSmaller<T>(h: seq<T>, lo: int, filter: T -> int) {
    forall i :: 0 <= lo <= i < |h| ==> filter(h[i]) < 0
  }

  /** The outcome: `at` is the position of the target record `b`, or negative if there is none. */
  ghost predicate Settled<T>(n: int, size: int, h: seq<T>, lo: int, filter: T -> int,
                             a: int, b: int, at: int)
    requires n > 0
  {
    if at < 0 then AllSmaller(h, lo, filter)
    else a <= b && IsTarget(h, lo, filter, b) && at == Offset(n, size, b)
  }

  lemma NarrowedBounds<T>(n: int, size: int, h: seq<T>, lo: int, filter: T -> int, a: int, b: int, w: Window)
    requires n > 0 && Narrowed(n, size, h, lo, filter, a, b, w)
    ensures 0 <= lo <= a <= a + (b - a) / 2 < b <= |h|
  {
  }

  /** The three outcomes of comparing the middle record `m` of a narrowed window. */
  lemma EqualIsTarget<T>(n: int, size: int, h: seq<T>, lo: int, filter: T -> int,
                         a: int, b: int, w: Window, m: int)
    requires n > 0 && size > 0 && SortedFrom(h, lo, filter)
    requires Narrowed(n, size, h, lo, filter, a, b, w)
    requires a <= m < b && filter(h[m]) == 0
    ensures Settled(n, size, h, lo, filter, a, m, Offset(n, size, m)) && Offset(n, size, m) >= 0
  {
    OffsetNext(n, size, m);
  }

  lemma GreaterNarrows<T>(n: int, size: int, h: seq<T>, lo: int, filter: T -> int,
                          a: int, b: int, w: Window, m: int)
    requires n > 0 && size > 0
    requires Narrowed(n, size, h, lo, filter, a, b, w)
    requires m == a + (b - a) / 2 && filter(h[m]) > 0
    ensures var at := Offset(n, size, m);
            && at >= 0
            && (at == w.start ==> Settled(n, size, h, lo, filter, a, m, at))
            && (at != w.start ==> Narrowed(n, size, h, lo, filter, a, m, Window(w.start, at, at)))
  {
    OffsetNext(n, size, m);
    OffsetInjective(n, size, a, m);
  }

  lemma SmallerNarrows<T>(n: int, size: int, h: seq<T>, lo: int, filter: T -> int,
                          a: int, b: int, w: Window, m: int, written: int)
    requires n > 0 && size > 0 && SortedFrom(h, lo, filter)
    requires Narrowed(n, size, h, lo, filter, a, b, w)
    requires m == a + (b - a) / 2 && filter(h[m]) < 0 && |h| <= written
    ensures var next := NextRecord(Offset(n, size, m), w.end, size, Min(written, n) * size);
            && (next < 0 <==> m + 1 == b)
            && (next < 0 ==> Settled(n, size, h, lo, filter, a, b, w.lastGreater))
            && (next >= 0 ==> next == Offset(n, size, m + 1) && next != Offset(n, size, m)
                              && Narrowed(n, size, h, lo, filter, m + 1, b, w.(start := next)))
  {
    NextRecordIsNext(n, size, m, b, written);
    OffsetNext(n, size, m);
    OffsetNext(n, size, m + 1);
    assert forall i :: lo <= i <= m ==> filter(h[i]) < 0;
    if m + 1 < b {
      OffsetInjective(n, size, m, m + 1);
    }
  }

  // ---------------------------------------------------------------- letting the writer in

  function WriteAll<T>(s: System<T>, records: seq<T>): System<T> {
    if records == [] then s
    else WriteStep(WriteAll(s, records[..|records| - 1]), records[|records| - 1])
  }

  /** How many records have been written after `attempts` more under a lock that keeps all beyond
      `limit` waiting. */
  function Reached(written: int, attempts: int, limit: int): int {
    Min(written + attempts, limit)
  }

  lemma ReachedTwice(written: int, a: nat, b: nat, limit: int)
    ensures Reached(Reached(written, a, limit), b, limit) == Reached(written, a + b, limit)
  {
  }

  /** What the writer attempts from its turn `from` on, before its turn `until`. */
  function Attempts<T>(writer: nat -> seq<T>, from: nat, until: nat): seq<T>
    decreases until
  {
    if until <= from then [] else Attempts(writer, from, until - 1) + writer(until - 1)
  }

  /** A lock of the search: on the records from number `from` on, taken when `taken` records had been
      written, before the writer's turn `turn`. */
  datatype SearchLock = SearchLock(from: int, taken: int, turn: nat)

  /** The last lock taken by a search that finds all of the records a..b too small. From one lock to
      the next, the writer has four turns: before the middle is computed, before and after the record
      there is read, and before the lock is replaced. */
  function LastLock<T>(n: int, writer: nat -> seq<T>, b: int, l: SearchLock): SearchLock
    decreases b - l.from
  {
    if b - l.from <= 2 then l
    else
      var taken := Reached(l.taken, |Attempts(writer, l.turn, l.turn + 4)|, l.from + n);
      LastLock(n, writer, b, SearchLock(l.from + (b - l.from) / 2 + 1, taken, l.turn + 4))
  }

  /** The last lock of a search without success in a log of `n` slots into which `written` records had
      been written. */
  function FailingLock<T>(n: int, written: nat, writer: nat -> seq<T>): SearchLock
    requires n > 0
  {
    LastLock(n, writer, written, SearchLock(written - WindowSize(n, written), written, 0))
  }

  /** Nothing gets in between that lock and the end of the search: the log is empty, so that the lock
      keeps the writer out, or the log is a full turn ahead of the lock already, or the writer attempts
      nothing in these four turns. */
  predicate KeptOut<T>(n: int, written: nat, writer: nat -> seq<T>)
    requires n > 0
  {
    var l := FailingLock(n, written, writer);
    written == 0 || l.taken == l.from + n || Attempts(writer, l.turn, l.turn + 4) == []
  }

  /** How many records have been written when that search ends. */
  function WrittenAtFailure<T>(n: int, written: nat, writer: nat -> seq<T>): int
    requires n > 0
  {
    var l := FailingLock(n, written, writer);
    if written == 0 then 0 else Reached(l.taken, |Attempts(writer, l.turn, l.turn + 4)|, l.from + n)
  }

  /** The outcome of a search that finds nothing: the reader is exhausted exactly if nothing got in
      after its last lock, and otherwise holds a lock on what did. */
  ghost predicate InVain<T>(h: seq<T>, writer: nat -> seq<T>, t: System<T>, taken: int, signals: nat)
    requires t.log.maxRecords > 0
  {
    var n := t.log.maxRecords;
    && taken == FailingLock(n, |h|, writer).taken
    && |t.history| == WrittenAtFailure(n, |h|, writer)
    && (if KeptOut(n, |h|, writer)
        then taken == |t.history| && Unlocked(t) && t.signals == signals + 1
        else taken < |t.history| && LockedFrom(t, taken, |t.history|) && t.signals == signals)
  }

  lemma AttemptsNext<T>(writer: nat -> seq<T>, from: nat, until: nat)
    requires from <= until
    ensures |Attempts(writer, from, until + 1)| == |Attempts(writer, from, until)| + |writer(until)|
    ensures Attempts(writer, from, from) == []
  {
  }

  /** The number of records written is known by the lock held and the attempts since it was taken; and no
      more were written, beyond the `first` ones, than were attempted. */
  ghost predicate Accounted<T>(n: int, first: int, written: int, writer: nat -> seq<T>, l: SearchLock, turn: nat) {
    && l.turn <= turn
    && written == Reached(l.taken, |Attempts(writer, l.turn, turn)|, l.from + n)
    && written <= first + |Attempts(writer, 0, turn)|
  }

  lemma TurnAccounted<T>(n: int, first: int, written: int, writer: nat -> seq<T>, l: SearchLock, turn: nat)
    requires Accounted(n, first, written, writer, l, turn)
    ensures Accounted(n, first, Reached(written, |writer(turn)|, l.from + n), writer, l, turn + 1)
  {
    AttemptsNext(writer, l.turn, turn);
    AttemptsNext(writer, 0, turn);
  }

  lemma TwoTurnsAccounted<T>(n: int, first: int, written: int, writer: nat -> seq<T>, l: SearchLock, turn: nat)
    requires Accounted(n, first, written, writer, l, turn)
    ensures Accounted(n, first, Reached(written, |writer(turn)| + |writer(turn + 1)|, l.from + n), writer, l, turn + 2)
  {
    TurnAccounted(n, first, written, writer, l, turn);
    TurnAccounted(n, first, Reached(written, |writer(turn)|, l.from + n), writer, l, turn + 1);
  }

  /** The next lock, taken after the writer's turn `turn`. */
  function Relocked<T>(n: int, writer: nat -> seq<T>, l: SearchLock, from: int, turn: nat): SearchLock {
    SearchLock(from, Reached(l.taken, |Attempts(writer, l.turn, turn + 1)|, l.from + n), turn + 1)
  }

  lemma RelockAccounted<T>(n: int, first: int, written: int, writer: nat -> seq<T>, l: SearchLock, from: int, turn: nat)
    requires Accounted(n, first, written, writer, l, turn) && l.from <= from
    ensures var next := Relocked(n, writer, l, from, turn);
            && next.taken == Reached(written, |writer(turn)|, l.from + n)
            && Accounted(n, first, next.taken, writer, next, turn + 1)
  {
    TurnAccounted(n, first, written, writer, l, turn);
    AttemptsNext(writer, turn + 1, turn + 1);
  }

  /** As long as all records turn out too small, the search takes the locks of LastLock; `k` turns have
      passed since the latest of them. */
  ghost predicate Failing<T>(n: int, writer: nat -> seq<T>, h: seq<T>, lo: int, filter: T -> int,
                             b: int, l: SearchLock, turn: nat, k: nat) {
    AllSmaller(h, lo, filter) ==>
      && b == |h| && turn == l.turn + k
      && LastLock(n, writer, b, l) == LastLock(n, writer, b, SearchLock(lo, |h|, 0))
  }

  /** What a middle record too small does to that: the search ends, or moves its lock. */
  ghost predicate Judged<T>(n: int, writer: nat -> seq<T>, b: int, l: SearchLock, turn: nat,
                            done: bool, newB: int, newL: SearchLock, nextTurn: nat) {
    && newB == b
    && (if b - l.from <= 2 then done && newL == l && nextTurn == turn
        else !done && newL == Relocked(n, writer, l, l.from + (b - l.from) / 2 + 1, turn)
             && nextTurn == turn + 1)
  }

  lemma JudgedFailing<T>(n: int, writer: nat -> seq<T>, h: seq<T>, lo: int, filter: T -> int,
                         b: int, l: SearchLock, turn: nat, done: bool, newB: int, newL: SearchLock, nextTurn: nat)
    requires Failing(n, writer, h, lo, filter, b, l, turn, 1) && 0 <= lo <= l.from < b <= |h|
    requires filter(h[l.from + (b - l.from) / 2]) < 0 ==>
               Judged(n, writer, b, l, turn + 2, done, newB, newL, nextTurn)
    ensures Failing(n, writer, h, lo, filter, newB, newL, nextTurn, if done then 3 else 0)
    ensures AllSmaller(h, lo, filter) && done ==> newB - newL.from <= 2
  {
    hide Attempts, Reached;
  }

  lemma OneTurnFailing<T>(n: int, writer: nat -> seq<T>, h: seq<T>, lo: int, filter: T -> int,
                          b: int, l: SearchLock, turn: nat)
    requires Failing(n, writer, h, lo, filter, b, l, turn, 0)
    ensures Failing(n, writer, h, lo, filter, b, l, turn + 1, 1)
  {
  }

  /** Between narrowing the window and moving to its middle, at its middle, and at the end. */
  datatype Phase = Narrowing | Centered | Ended

  lemma GrowthBound<T>(n: int, first: int, written: int, writer: nat -> seq<T>, l: SearchLock, turn: nat)
    requires Accounted(n, first, written, writer, l, turn)
    ensures written <= first + |Attempts(writer, 0, turn)|
  {
  }

  lemma SettledAt<T>(n: int, size: int, h: seq<T>, lo: int, filter: T -> int, a: int, b: int, at: int)
    requires n > 0 && Settled(n, size, h, lo, filter, a, b, at)
    ensures if at < 0 then AllSmaller(h, lo, filter)
            else a <= b < |h| && IsTarget(h, lo, filter, b) && at == Offset(n, size, b)
  {
  }

  lemma VainlySought<T>(h: seq<T>, writer: nat -> seq<T>, t: System<T>, taken: int, signals: nat)
    requires t.log.maxRecords > 0 && h != []
    requires taken == FailingLock(t.log.maxRecords, |h|, writer).taken
    requires |t.history| == WrittenAtFailure(t.log.maxRecords, |h|, writer) && taken <= |t.history|
    requires taken == |t.history| <==> KeptOut(t.log.maxRecords, |h|, writer)
    requires taken == |t.history| ==> Unlocked(t) && t.signals == signals + 1
    requires taken < |t.history| ==> LockedFrom(t, taken, |t.history|) && t.signals == signals
    ensures InVain(h, writer, t, taken, signals)
  {
  }

  /** What follows from the account of a search that found nothing. */
  lemma FailureAccounted<T>(n: int, writer: nat -> seq<T>, h: seq<T>, l: SearchLock, was: int)
    requires n > 0 && h != [] && l.taken <= l.from + n
    requires l == LastLock(n, writer, |h|, SearchLock(|h| - WindowSize(n, |h|), |h|, 0))
    requires Accounted(n, |h|, was, writer, l, l.turn + 3)
    ensures l == FailingLock(n, |h|, writer)
    ensures Reached(was, |writer(l.turn + 3)|, l.from + n) == WrittenAtFailure(n, |h|, writer)
    ensures l.taken <= WrittenAtFailure(n, |h|, writer)
    ensures l.taken == WrittenAtFailure(n, |h|, writer) <==> KeptOut(n, |h|, writer)
  {
    TurnAccounted(n, |h|, was, writer, l, l.turn + 3);
  }

  /** A writer that attempts nothing never gets in. */
  lemma IdleWriterKeptOut<T>(n: int, written: nat, writer: nat -> seq<T>)
    requires n > 0 && forall k :: writer(k) == []
    ensures KeptOut(n, written, writer)
  {
    var l := FailingLock(n, written, writer);
    AttemptsOfIdle(writer, l.turn, l.turn + 4);
  }

  lemma {:induction false} AttemptsOfIdle<T>(writer: nat -> seq<T>, from: nat, until: nat)
    requires forall k :: writer(k) == []
    ensures Attempts(writer, from, until) == []
    decreases until
  {
    if from < until {
      AttemptsOfIdle(writer, from, until - 1);
    }
  }

  /** One write does, when a log of two slots holds one record. */
  lemma OneWriteGetsIn<T>(writer: nat -> seq<T>, x: T)
    requires writer(0) == [x] && forall k :: k > 0 ==> writer(k) == []
    ensures !KeptOut(2, 1, writer)
    ensures FailingLock(2, 1, writer).taken == 1 && WrittenAtFailure(2, 1, writer) == 2
  {
    AttemptsNext(writer, 0, 0);
    AttemptsNext(writer, 0, 1);
    AttemptsNext(writer, 0, 2);
    AttemptsNext(writer, 0, 3);
  }

  lemma {:induction false} WriteAllUnderLock<T>(s: System<T>, records: seq<T>, r: int, taken: int)
    requires LockedFrom(s, r, taken)
    ensures LockedFrom(WriteAll(s, records), r, taken)
    ensures s.history <= WriteAll(s, records).history
    ensures |WriteAll(s, records).history| == Reached(|s.history|, |records|, r + s.log.maxRecords)
    ensures WriteAll(s, records) == s.(log := WriteAll(s, records).log,
                                       history := WriteAll(s, records).history)
    ensures WriteAll(s, records).log.maxRecords == s.log.maxRecords
    ensures WriteAll(s, records).log.recordSize == s.log.recordSize
  {
    if records != [] {
      WriteAllUnderLock(s, records[..|records| - 1], r, taken);
      WriteUnderLock(WriteAll(s, records[..|records| - 1]), r, taken, records[|records| - 1]);
    }
  }

  // ---------------------------------------------------------------- the reader

  class CyclicLogReader<T> {
    const log: CyclicLog<T>
    const hasClient: bool
    var lock: CyclicLogLock?
    var position: int
    var hand: Option<T>
    var notified: nat          // calls of the client's readerExhausted
    ghost var pulled: seq<T>
    ghost var signals: nat

    ghost predicate Valid()
      reads this, log, log.chain
    {
      && log.Valid()
      && (lock == null ==> log.chain == [])
      && (lock != null ==> log.chain == [lock])
      && notified == if hasClient then signals else 0
    }

    ghost function View(): System<T>
      reads this, log
    {
      System(log.View(), log.history, if lock == null then None else Some(lock.Bounds()),
             position, hand, pulled, signals)
    }

    constructor (log: CyclicLog<T>, hasClient: bool)
      requires log.Valid() && log.chain == []
      ensures Valid() && this.log == log && this.hasClient == hasClient
      ensures View() == System(log.View(), log.history, None, 0, None, [], 0)
    {
      this.log, this.hasClient := log, hasClient;
      this.lock, this.position, this.hand, this.notified := null, 0, None, 0;
      this.pulled, this.signals := [], 0;
    }

    method LetWriterIn(records: seq<T>)
      requires Valid()
      modifies log`file, log`position, log`storedPosition, log`history
      ensures Valid() && View() == WriteAll(old(View()), records)
    {
      for i := 0 to |records|
        invariant Valid() && View() == WriteAll(old(View()), records[..i])
      {
        assert records[..i + 1][..i] == records[..i];
        var written := log.TryWrite(records[i]);
      }
      assert records[..|records|] == records;
    }

    method RemoveLock()
      requires Valid() && lock != null
      modifies this`lock, log`lock, log`lockStart, log`lockEnd, log`chain, log.chain
      ensures Valid() && lock == null
      ensures View() == DropLock(old(View()))
    {
      log.Unlock(lock, 0);
      lock := null;
    }

    method Relock(from: int)
      requires Valid() && lock != null
      modifies this`lock, log`lock, log`lockStart, log`lockEnd, log`chain, log.chain
      ensures Valid() && lock != null && fresh(lock)
      ensures View() == RelockFrom(old(View()), from)
    {
      RemoveLock();
      lock := log.LockRegion(from, log.position);
    }

    method CheckExhausted(position: int)
      requires Valid() && lock != null
      modifies this`lock, this`notified, this`signals,
               log`lock, log`lockStart, log`lockEnd, log`chain, log.chain
      ensures Valid() && (lock != null ==> fresh(lock))
      ensures View() == CheckExhaust(old(View()), position)
    {
      var logPosition := log.position;
      if position != logPosition {
        Relock(position);
      } else {
        RemoveLock();
        signals := signals + 1;
        if hasClient {
          notified := notified + 1;
        }
      }
    }

    method ReadAt() returns (record: T)
      requires Valid() && Readable(View())
      modifies this`position, this`hand
      ensures Valid() && View() == ReadRecord(old(View())) && Some(record) == hand
    {
      record := log.file[position / log.recordSize];
      hand := Some(record);
      position := position + log.recordSize;
      if position >= log.maxRecords * log.recordSize {
        position := 0;
      }
    }

    // -------------------------------------------------------------- steps of a search

    method LockWindow()
      requires Valid() && Represents(log.View(), log.history)
      modifies this`lock, log`lock, log`lockStart, log`lockEnd, log`chain, log.chain
      ensures Valid() && lock != null && fresh(lock)
      ensures log.history == old(log.history) && Represents(log.View(), log.history)
      ensures var lo := |log.history| - WindowSize(log.maxRecords, |log.history|);
              && lock.Bounds() == Region(Offset(log.maxRecords, log.recordSize, lo), log.position)
              && if log.history == [] then EmptyAndLocked(View())
                 else LockedFrom(View(), lo, |log.history|)
    {
      hide Represents, Offset, WindowSize, WholeRegion, LockedFrom, EmptyAndLocked, AddLock, DropLock;
      hide Linked, Regions;
      if lock != null {
        DropKeeps(View());
        RemoveLock();
      }
      LockTakesWindow(View());
      lock := log.LockAll();
    }

    method LetWriterInLocked(records: seq<T>, ghost r: int, ghost taken: int)
      requires Valid() && LockedFrom(View(), r, taken)
      modifies log`file, log`position, log`storedPosition, log`history
      ensures Valid() && LockedFrom(View(), r, taken) && old(log.history) <= log.history
      ensures |log.history| == Reached(|old(log.history)|, |records|, r + log.maxRecords)
      ensures View() == WriteAll(old(View()), records)
    {
      WriteAllUnderLock(View(), records, r, taken);
      LetWriterIn(records);
    }

    method RelockLocked(before: seq<T>, from: int, ghost r: int, ghost taken: int, ghost i: int)
      requires Valid() && LockedFrom(View(), r, taken) && r <= i < |log.history|
      requires from == Offset(log.maxRecords, log.recordSize, i)
      modifies this`lock, log, log.chain
      ensures Valid() && lock != null && fresh(lock) && old(log.history) <= log.history
      ensures LockedFrom(View(), i, |log.history|)
      ensures |log.history| == Reached(|old(log.history)|, |before|, r + log.maxRecords)
    {
      LetWriterInLocked(before, r, taken);
      RelockKeeps(View(), r, taken, i);
      Relock(from);
    }

    method FilterRecord(before: seq<T>, filter: T -> int, moved: int -> int, after: seq<T>,
                        ghost r: int, ghost taken: int, ghost i: int)
      returns (cmp: int)
      requires Valid() && LockedFrom(View(), r, taken) && r <= i < |log.history|
      requires position == Offset(log.maxRecords, log.recordSize, i)
      modifies this`position, log`file, log`position, log`storedPosition, log`history
      ensures Valid() && LockedFrom(View(), r, taken) && old(log.history) <= log.history
      ensures cmp == filter(old(log.history)[i])
      ensures |log.history| == Reached(|old(log.history)|, |before| + |after|, r + log.maxRecords)
    {
      hide *;
      LetWriterInLocked(before, r, taken);
      cmp := Compare(filter, r, taken, i);
      MoveChannel(moved(position), r, taken);
      LetWriterInLocked(after, r, taken);
      ReachedTwice(|old(log.history)|, |before|, |after|, r + log.maxRecords);
    }

    method Compare(filter: T -> int, ghost r: int, ghost taken: int, ghost i: int) returns (cmp: int)
      requires Valid() && LockedFrom(View(), r, taken) && r <= i < |log.history|
      requires position == Offset(log.maxRecords, log.recordSize, i)
      ensures cmp == filter(log.history[i])
    {
      ProtectedRecord(View(), r, taken, i);
      cmp := filter(log.file[position / log.recordSize]);
    }

    /** Moving the channel changes nothing else. */
    method MoveChannel(to: int, ghost r: int, ghost taken: int)
      requires Valid() && LockedFrom(View(), r, taken)
      modifies this`position
      ensures Valid() && LockedFrom(View(), r, taken) && position == to
    {
      position := to;
    }

    method MoveToMiddle(before: seq<T>, start: int, end: int, ghost r: int, ghost taken: int, ghost b: int)
      returns (inside: bool)
      requires Valid() && LockedFrom(View(), r, taken) && r < b <= |log.history| && b - r <= log.maxRecords
      requires start == Offset(log.maxRecords, log.recordSize, r)
      requires end == Offset(log.maxRecords, log.recordSize, b)
      modifies this`position, log`file, log`position, log`storedPosition, log`history
      ensures Valid() && LockedFrom(View(), r, taken) && old(log.history) <= log.history
      ensures inside && position == Offset(log.maxRecords, log.recordSize, r + (b - r) / 2)
      ensures |log.history| == Reached(|old(log.history)|, |before|, r + log.maxRecords)
    {
      LetWriterInLocked(before, r, taken);
      MiddleIsHalfway(log.maxRecords, log.recordSize, r, b, |log.history|);
      var middle := Middle(start, end, log.recordSize, |log.file| * log.recordSize);
      inside := middle.Some?;
      if inside {
        position := middle.value;
      }
    }

    /** After the smaller record `m` under `at`: the position of the next one, -1 at the end of the
        window. Otherwise the lock is narrowed to start there. */
    method SkipSmaller(before: seq<T>, filter: T -> int, at: int, w: Window, ghost h: seq<T>, ghost lo: int,
                       ghost a: int, ghost b: int, ghost taken: int, ghost m: int)
      returns (next: int, ghost newTaken: int)
      requires Valid() && lock != null && LockedFrom(View(), a, taken) && h <= log.history
      requires SortedFrom(h, lo, filter) && |h| <= taken
      requires Narrowed(log.maxRecords, log.recordSize, h, lo, filter, a, b, w)
      requires m == a + (b - a) / 2 && filter(h[m]) < 0
      requires at == Offset(log.maxRecords, log.recordSize, m)
      modifies this`lock, log, log.chain
      ensures Valid() && lock != null && h <= log.history && |h| <= newTaken
      ensures next < 0 ==>
                && lock == old(lock) && LockedFrom(View(), a, newTaken)
                && Settled(log.maxRecords, log.recordSize, h, lo, filter, a, b, w.lastGreater)
                && newTaken == taken && |log.history| == |old(log.history)|
      ensures next >= 0 ==>
                && fresh(lock) && LockedFrom(View(), m + 1, newTaken) && next != at
                && Narrowed(log.maxRecords, log.recordSize, h, lo, filter, m + 1, b, w.(start := next))
                && newTaken == |log.history|
                && newTaken == Reached(|old(log.history)|, |before|, a + log.maxRecords)
      ensures next < 0 <==> m + 1 == b
    {
      SmallerNarrows(log.maxRecords, log.recordSize, h, lo, filter, a, b, w, m, |log.history|);
      next := NextRecord(at, w.end, log.recordSize, |log.file| * log.recordSize);
      newTaken := taken;
      if next >= 0 {
        RelockLocked(before, next, a, taken, m + 1);
        newTaken := |log.history|;
      }
    }

    /** Narrows the window by the verdict on its middle record, read at position `at`. */
    method Narrow(cmp: int, at: int, filter: T -> int, before: seq<T>, w: Window,
                  ghost h: seq<T>, ghost lo: int, ghost a: int, ghost b: int, ghost taken: int)
      returns (done: bool, next: Window, ghost newA: int, ghost newB: int, ghost newTaken: int)
      requires Valid() && lock != null && LockedFrom(View(), a, taken) && h <= log.history
      requires SortedFrom(h, lo, filter) && |h| <= taken
      requires Narrowed(log.maxRecords, log.recordSize, h, lo, filter, a, b, w)
      requires cmp == filter(h[a + (b - a) / 2])
      requires at == Offset(log.maxRecords, log.recordSize, a + (b - a) / 2)
      modifies this`lock, log, log.chain
      ensures Valid() && lock != null && (lock == old(lock) || fresh(lock))
      ensures LockedFrom(View(), newA, newTaken) && h <= log.history && |h| <= newTaken
      ensures done ==> Settled(log.maxRecords, log.recordSize, h, lo, filter, newA, newB, next.lastGreater)
      ensures !done ==>
                && newB - newA < b - a
                && Narrowed(log.maxRecords, log.recordSize, h, lo, filter, newA, newB, next)
      ensures newA == if done || cmp >= 0 then a else a + (b - a) / 2 + 1
      ensures cmp < 0 ==> newB == b && (done <==> b - a <= 2)
      ensures done || cmp >= 0 ==> newTaken == taken && |log.history| == |old(log.history)|
      ensures !done && cmp < 0 ==>
                newTaken == |log.history| == Reached(|old(log.history)|, |before|, a + log.maxRecords)
    {
      hide *;
      ghost var n, size, m := log.maxRecords, log.recordSize, a + (b - a) / 2;
      Sized();
      NarrowedBounds(n, size, h, lo, filter, a, b, w);
      next, newA, newB, newTaken := w, a, b, taken;
      if cmp == 0 {
        EqualIsTarget(n, size, h, lo, filter, a, b, w, m);
        newB := m;
        next := next.(lastGreater := at);
        done := true;
      } else if cmp > 0 {
        GreaterNarrows(n, size, h, lo, filter, a, b, w, m);
        newB := m;
        next := next.(end := at, lastGreater := at);
        done := at == next.start;
      } else {
        var start;
        start, newTaken := SkipSmaller(before, filter, at, w, h, lo, a, b, taken, m);
        done := start < 0;
        if !done {
          newA := m + 1;
          next := next.(start := start);
          done := at == next.start;
        }
      }
    }

    /** Narrows the window, and keeps the account of the writer's turns. */
    method Judge(cmp: int, at: int, filter: T -> int, writer: nat -> seq<T>, turn: nat, w: Window,
                 ghost h: seq<T>, ghost lo: int, ghost b: int, ghost l: SearchLock)
      returns (done: bool, next: Window, nextTurn: nat, ghost newB: int, ghost newL: SearchLock)
      requires Protects(h, l) && SortedFrom(h, lo, filter)
      requires Narrowed(log.maxRecords, log.recordSize, h, lo, filter, l.from, b, w)
      requires cmp == filter(h[l.from + (b - l.from) / 2])
      requires at == Offset(log.maxRecords, log.recordSize, l.from + (b - l.from) / 2)
      requires Accounted(log.maxRecords, |h|, |log.history|, writer, l, turn)
      modifies this`lock, log, log.chain
      ensures Protects(h, newL) && (lock == old(lock) || fresh(lock))
      ensures if done then Settled(log.maxRecords, log.recordSize, h, lo, filter, newL.from, newB, next.lastGreater)
              else newB - newL.from < b - l.from
                   && Narrowed(log.maxRecords, log.recordSize, h, lo, filter, newL.from, newB, next)
      ensures Accounted(log.maxRecords, |h|, |log.history|, writer, newL, nextTurn)
      ensures cmp < 0 ==> Judged(log.maxRecords, writer, b, l, turn, done, newB, newL, nextTurn)
    {
      hide Valid, View, LockedFrom, Narrowed, Settled, SortedFrom, Offset, Attempts, Reached, Accounted;
      ghost var was := |log.history|;
      ghost var newA, newTaken;
      done, next, newA, newB, newTaken := Narrow(cmp, at, filter, writer(turn), w, h, lo, l.from, b, l.taken);
      nextTurn, newL := turn, l;
      if !done && cmp < 0 {
        RelockAccounted(log.maxRecords, |h|, was, writer, l, newA, turn);
        nextTurn, newL := turn + 1, Relocked(log.maxRecords, writer, l, newA, turn);
      }
    }

    /** The lock held is `l`, and nothing of the window `h` was overwritten. */
    ghost predicate Protects(h: seq<T>, l: SearchLock)
      reads this, log, log.chain
    {
      match l
      case SearchLock(from, taken, _) =>
        Valid() && lock != null && LockedFrom(View(), from, taken) && h <= log.history && |h| <= taken
    }

    method ReadMiddle(filter: T -> int, moved: int -> int, writer: nat -> seq<T>, turn: nat,
                      ghost h: seq<T>, ghost b: int, ghost l: SearchLock)
      returns (cmp: int)
      requires Protects(h, l) && l.from < b <= |h|
      requires position == Offset(log.maxRecords, log.recordSize, l.from + (b - l.from) / 2)
      requires Accounted(log.maxRecords, |h|, |log.history|, writer, l, turn)
      modifies this`position, log`file, log`position, log`storedPosition, log`history
      ensures Protects(h, l) && cmp == filter(h[l.from + (b - l.from) / 2])
      ensures Accounted(log.maxRecords, |h|, |log.history|, writer, l, turn + 2)
    {
      ghost var m, was := l.from + (b - l.from) / 2, |log.history|;
      assert h[m] == log.history[m];
      hide Valid, View, LockedFrom, Offset, Attempts, Reached, Accounted;
      cmp := FilterRecord(writer(turn), filter, moved, writer(turn + 1), l.from, l.taken, m);
      TwoTurnsAccounted(log.maxRecords, |h|, was, writer, l, turn);
    }

    /** The state of the search: what was found out, where the channel is, and the account of the writer's
        turns. */
    ghost predicate Searching(filter: T -> int, writer: nat -> seq<T>, h: seq<T>, lo: int,
                              b: int, l: SearchLock, w: Window, turn: nat, phase: Phase)
      reads this, log, log.chain
    {
      match phase
      case Narrowing =>
        && Accountable(writer, h, l, turn)
        && Failing(log.maxRecords, writer, h, lo, filter, b, l, turn, 0)
        && Narrowed(log.maxRecords, log.recordSize, h, lo, filter, l.from, b, w)
      case Centered =>
        && Accountable(writer, h, l, turn)
        && Failing(log.maxRecords, writer, h, lo, filter, b, l, turn, 1)
        && Narrowed(log.maxRecords, log.recordSize, h, lo, filter, l.from, b, w)
        && position == Offset(log.maxRecords, log.recordSize, l.from + (b - l.from) / 2)
      case Ended =>
        && Accountable(writer, h, l, turn)
        && Failing(log.maxRecords, writer, h, lo, filter, b, l, turn, 3)
        && Settled(log.maxRecords, log.recordSize, h, lo, filter, l.from, b, w.lastGreater)
        && (AllSmaller(h, lo, filter) ==> b - l.from <= 2)
    }

    ghost predicate Accountable(writer: nat -> seq<T>, h: seq<T>, l: SearchLock, turn: nat)
      reads this, log, log.chain
    {
      Protects(h, l) && Accounted(log.maxRecords, |h|, |log.history|, writer, l, turn)
    }

    /** Reads the middle record and narrows the window. */
    method Probe(filter: T -> int, moved: int -> int, writer: nat -> seq<T>, turn: nat, w: Window,
                 ghost h: seq<T>, ghost lo: int, ghost b: int, ghost l: SearchLock)
      returns (done: bool, next: Window, nextTurn: nat, ghost newB: int, ghost newL: SearchLock)
      requires Searching(filter, writer, h, lo, b, l, w, turn, Centered) && SortedFrom(h, lo, filter)
      modifies this`lock, this`position, log, log.chain
      ensures Searching(filter, writer, h, lo, newB, newL, next, nextTurn, if done then Ended else Narrowing)
      ensures lock == old(lock) || fresh(lock)
      ensures !done ==> 0 < newB - newL.from < b - l.from
    {
      hide *;
      SearchOpened(filter, writer, h, lo, b, l, w, turn);
      var at := position;
      var cmp := ReadMiddle(filter, moved, writer, turn, h, b, l);
      done, next, nextTurn, newB, newL := Judge(cmp, at, filter, writer, turn + 2, w, h, lo, b, l);
      JudgedFailing(log.maxRecords, writer, h, lo, filter, b, l, turn, done, newB, newL, nextTurn);
      SearchJudged(filter, writer, h, lo, newB, newL, next, nextTurn, done);
    }

    lemma SearchOpened(filter: T -> int, writer: nat -> seq<T>, h: seq<T>, lo: int,
                       b: int, l: SearchLock, w: Window, turn: nat)
      requires Searching(filter, writer, h, lo, b, l, w, turn, Centered)
      ensures Protects(h, l) && Narrowed(log.maxRecords, log.recordSize, h, lo, filter, l.from, b, w)
      ensures 0 <= lo <= l.from < b <= |h| && log.maxRecords > 0
      ensures position == Offset(log.maxRecords, log.recordSize, l.from + (b - l.from) / 2)
      ensures Accounted(log.maxRecords, |h|, |log.history|, writer, l, turn)
      ensures Failing(log.maxRecords, writer, h, lo, filter, b, l, turn, 1)
    {
    }

    lemma SearchJudged(filter: T -> int, writer: nat -> seq<T>, h: seq<T>, lo: int,
                       b: int, l: SearchLock, w: Window, turn: nat, done: bool)
      requires Protects(h, l) && Accounted(log.maxRecords, |h|, |log.history|, writer, l, turn)
      requires if done then Settled(log.maxRecords, log.recordSize, h, lo, filter, l.from, b, w.lastGreater)
               else Narrowed(log.maxRecords, log.recordSize, h, lo, filter, l.from, b, w)
      requires Failing(log.maxRecords, writer, h, lo, filter, b, l, turn, if done then 3 else 0)
      requires AllSmaller(h, lo, filter) && done ==> b - l.from <= 2
      ensures Searching(filter, writer, h, lo, b, l, w, turn, if done then Ended else Narrowing)
      ensures !done ==> l.from < b
    {
    }

    method MoveInside(before: seq<T>, w: Window, ghost h: seq<T>, ghost lo: int, ghost filter: T -> int,
                      ghost b: int, ghost l: SearchLock)
      requires Protects(h, l) && log.maxRecords > 0
      requires Narrowed(log.maxRecords, log.recordSize, h, lo, filter, l.from, b, w)
      modifies this`position, log`file, log`position, log`storedPosition, log`history
      ensures Protects(h, l)
      ensures position == Offset(log.maxRecords, log.recordSize, l.from + (b - l.from) / 2)
      ensures |log.history| == Reached(|old(log.history)|, |before|, l.from + log.maxRecords)
    {
      hide Valid, View, LockedFrom, Offset, Reached;
      var inside := MoveToMiddle(before, w.start, w.end, l.from, l.taken, b);
    }

    /** Moves the channel to the middle of the window. */
    method Center(filter: T -> int, writer: nat -> seq<T>, turn: nat, w: Window,
                  ghost h: seq<T>, ghost lo: int, ghost b: int, ghost l: SearchLock)
      requires Searching(filter, writer, h, lo, b, l, w, turn, Narrowing)
      modifies this`position, log`file, log`position, log`storedPosition, log`history
      ensures Searching(filter, writer, h, lo, b, l, w, turn + 1, Centered)
    {
      hide *;
      WindowOpened(filter, writer, h, lo, b, l, w, turn);
      TurnAccounted(log.maxRecords, |h|, |log.history|, writer, l, turn);
      OneTurnFailing(log.maxRecords, writer, h, lo, filter, b, l, turn);
      MoveInside(writer(turn), w, h, lo, filter, b, l);
      WindowCentered(filter, writer, h, lo, b, l, w, turn + 1);
    }

    lemma WindowOpened(filter: T -> int, writer: nat -> seq<T>, h: seq<T>, lo: int,
                       b: int, l: SearchLock, w: Window, turn: nat)
      requires Searching(filter, writer, h, lo, b, l, w, turn, Narrowing)
      ensures Protects(h, l) && log.maxRecords > 0
      ensures Narrowed(log.maxRecords, log.recordSize, h, lo, filter, l.from, b, w)
      ensures Accounted(log.maxRecords, |h|, |log.history|, writer, l, turn)
      ensures Failing(log.maxRecords, writer, h, lo, filter, b, l, turn, 0)
    {
    }

    lemma WindowCentered(filter: T -> int, writer: nat -> seq<T>, h: seq<T>, lo: int,
                         b: int, l: SearchLock, w: Window, turn: nat)
      requires Protects(h, l) && log.maxRecords > 0
      requires Narrowed(log.maxRecords, log.recordSize, h, lo, filter, l.from, b, w)
      requires Accounted(log.maxRecords, |h|, |log.history|, writer, l, turn)
      requires Failing(log.maxRecords, writer, h, lo, filter, b, l, turn, 1)
      requires position == Offset(log.maxRecords, log.recordSize, l.from + (b - l.from) / 2)
      ensures Searching(filter, writer, h, lo, b, l, w, turn, Centered)
    {
    }

    lemma SearchStarts(filter: T -> int, writer: nat -> seq<T>, h: seq<T>, lo: int)
      requires Valid() && lock != null && LockedFrom(View(), lo, |h|) && h == log.history
      ensures Searching(filter, writer, h, lo, |h|, SearchLock(lo, |h|, 0), Window(lock.start, lock.end, -1), 0,
                        Narrowing)
      ensures 0 <= lo < |h| && log.chain == [lock] && log.maxRecords > 0
    {
    }

    /** One turn of the halving loop, with the channel moved to the middle of the window it leaves. */
    method Turn(filter: T -> int, moved: int -> int, writer: nat -> seq<T>, turn: nat, w: Window,
                ghost h: seq<T>, ghost lo: int, ghost b: int, ghost l: SearchLock)
      returns (done: bool, next: Window, nextTurn: nat, ghost newB: int, ghost newL: SearchLock)
      requires Searching(filter, writer, h, lo, b, l, w, turn, Centered) && SortedFrom(h, lo, filter)
      modifies this`lock, this`position, log, log.chain
      ensures Searching(filter, writer, h, lo, newB, newL, next, nextTurn, if done then Ended else Centered)
      ensures lock == old(lock) || fresh(lock)
      ensures !done ==> 0 < newB - newL.from < b - l.from
    {
      hide Searching, SortedFrom;
      done, next, nextTurn, newB, newL := Probe(filter, moved, writer, turn, w, h, lo, b, l);
      if !done {
        Center(filter, writer, nextTurn, next, h, lo, newB, newL);
        nextTurn := nextTurn + 1;
      }
    }

    /** The halving loop. Its result is the position of record `b` if that is the record to be found,
        and negative if every record of the window is smaller; the lock held is `l`. */
    method Search(filter: T -> int, moved: int -> int, writer: nat -> seq<T>,
                  ghost h: seq<T>, ghost lo: int)
      returns (result: int, turn: nat, ghost b: int, ghost l: SearchLock)
      requires Valid() && lock != null && LockedFrom(View(), lo, |h|) && h == log.history
      requires SortedFrom(h, lo, filter)
      modifies this`lock, this`position, log, log.chain
      ensures Protects(h, l) && (lock == old(lock) || fresh(lock))
      ensures Settled(log.maxRecords, log.recordSize, h, lo, filter, l.from, b, result)
      ensures Accounted(log.maxRecords, |h|, |log.history|, writer, l, turn)
      ensures result < 0 ==>
                turn == l.turn + 3 && l == LastLock(log.maxRecords, writer, |h|, SearchLock(lo, |h|, 0))
    {
      hide *;
      SearchStarts(filter, writer, h, lo);
      var window := Window(lock.start, lock.end, -1);
      b, l := |h|, SearchLock(lo, |h|, 0);
      Center(filter, writer, 0, window, h, lo, b, l);
      turn := 1;
      var done := false;
      while !done
        invariant Searching(filter, writer, h, lo, b, l, window, turn, if done then Ended else Centered)
        invariant lock == old(lock) || fresh(lock)
        invariant !done ==> 0 < b - l.from
        decreases !done, b - l.from
      {
        ChainIsLock(filter, writer, h, lo, b, l, window, turn, Centered);
        done, window, turn, b, l := Turn(filter, moved, writer, turn, window, h, lo, b, l);
      }
      result := window.lastGreater;
      SearchEnded(filter, writer, h, lo, b, l, window, turn);
    }

    lemma ChainIsLock(filter: T -> int, writer: nat -> seq<T>, h: seq<T>, lo: int,
                      b: int, l: SearchLock, w: Window, turn: nat, phase: Phase)
      requires Searching(filter, writer, h, lo, b, l, w, turn, phase)
      ensures lock != null && log.chain == [lock]
    {
    }

    lemma SearchEnded(filter: T -> int, writer: nat -> seq<T>, h: seq<T>, lo: int,
                      b: int, l: SearchLock, w: Window, turn: nat)
      requires Searching(filter, writer, h, lo, b, l, w, turn, Ended)
      ensures Protects(h, l) && Accounted(log.maxRecords, |h|, |log.history|, writer, l, turn)
      ensures Settled(log.maxRecords, log.recordSize, h, lo, filter, l.from, b, w.lastGreater)
      ensures w.lastGreater < 0 ==>
                turn == l.turn + 3 && l == LastLock(log.maxRecords, writer, |h|, SearchLock(lo, |h|, 0))
    {
      hide Protects, Accounted, Offset;
    }

    /** After a search without success: the reader is exhausted if nothing was written since its
        lock was taken, and keeps a lock on what was written otherwise. */
    method SeekFailed(before: seq<T>, ghost r: int, ghost taken: int)
      requires Valid() && lock != null && hand == None
      requires LockedFrom(View(), r, taken) || (EmptyAndLocked(View()) && taken == 0)
      modifies this`lock, this`notified, this`signals, log, log.chain
      ensures Valid() && old(log.history) <= log.history && (lock == null || fresh(lock))
      ensures |log.history|
           == if old(log.history) == [] then 0
              else Reached(|old(log.history)|, |before|, r + log.maxRecords)
      ensures taken == |log.history| ==> Unlocked(View()) && signals == old(signals) + 1
      ensures taken < |log.history| ==> LockedFrom(View(), taken, |log.history|) && signals == old(signals)
    {
      FailureOutcome(View(), before, r, taken);
      hide Valid, LockedFrom, EmptyAndLocked, Unlocked, CheckExhaust, WriteAll, Reached, Offset;
      LetWriterIn(before);
      CheckExhausted(lock.end);
    }

    method SeekSucceeded(before: seq<T>, at: int, ghost r: int, ghost taken: int, ghost i: int)
      requires Valid() && lock != null && hand == None
      requires LockedFrom(View(), r, taken) && r <= i < |log.history|
      requires at == Offset(log.maxRecords, log.recordSize, i)
      modifies this`lock, this`position, log, log.chain
      ensures Valid() && old(log.history) <= log.history && Positioned(View(), i)
      ensures lock != null && fresh(lock)
      ensures |log.history| == Reached(|old(log.history)|, |before|, r + log.maxRecords)
    {
      RelockLocked(before, at, r, taken, i);
      position := at;
      assert LockedFrom(View(), i, |log.history|);
    }

    method Close()
      requires Valid()
      modifies this`lock, log`lock, log`lockStart, log`lockEnd, log`chain, log.chain
      ensures Valid() && lock == null && log.history == old(log.history) && signals == old(signals)
      ensures View().log.file == old(View()).log.file && View().log.position == old(View()).log.position
    {
      if lock != null {
        RemoveLock();
      }
    }

    /** Takes a lock on the whole window and halves the window until the first record that is not
        smaller is found. `moved` tells where the filter leaves the channel. The ghost results name
        the record found and how many records had been written when the last lock was taken. */
    method Seek(filter: T -> int, moved: int -> int, writer: nat -> seq<T>)
      returns (found: bool, ghost target: int, ghost taken: int, ghost turns: nat)
      requires Valid() && Represents(log.View(), log.history) && hand == None
      requires SortedFrom(log.history, WindowStart(log), filter)
      modifies this`lock, this`position, this`notified, this`signals, log, log.chain
      ensures Valid() && old(log.history) <= log.history && hand == None && pulled == old(pulled)
      ensures |log.history| <= |old(log.history)| + |Attempts(writer, 0, turns)|
      ensures (lock == null || fresh(lock)) && log.chain == (if lock == null then [] else [lock])
      ensures hasClient ==> notified - old(notified) == signals - old(signals)
      ensures found ==>
                && IsTarget(old(log.history), old(WindowStart(log)), filter, target)
                && Positioned(View(), target) && signals == old(signals)
      ensures !found ==>
                && AllSmaller(old(log.history), old(WindowStart(log)), filter)
                && InVain(old(log.history), writer, View(), taken, old(signals))
    {
      LockWindow();
      found, target, taken, turns := SearchLocked(filter, moved, writer);
    }

    method SearchLocked(filter: T -> int, moved: int -> int, writer: nat -> seq<T>)
      returns (found: bool, ghost target: int, ghost taken: int, ghost turns: nat)
      requires Valid() && lock != null && hand == None
      requires if log.history == [] then EmptyAndLocked(View())
               else LockedFrom(View(), WindowStart(log), |log.history|)
      requires SortedFrom(log.history, WindowStart(log), filter)
      modifies this`lock, this`position, this`notified, this`signals, log, log.chain
      ensures Valid() && old(log.history) <= log.history && (lock == null || fresh(lock))
      ensures |log.history| <= |old(log.history)| + |Attempts(writer, 0, turns)|
      ensures found ==>
                && IsTarget(old(log.history), old(WindowStart(log)), filter, target)
                && Positioned(View(), target) && signals == old(signals)
      ensures !found ==>
                && AllSmaller(old(log.history), old(WindowStart(log)), filter)
                && InVain(old(log.history), writer, View(), taken, old(signals))
    {
      ghost var h, lo := log.history, WindowStart(log);
      MiddleOfWindow(log.maxRecords, log.recordSize, |h|);
      var middle := Middle(lock.start, lock.end, log.recordSize, |log.file| * log.recordSize);
      target, taken, turns := 0, |h|, 1;
      AttemptsNext(writer, 0, 0);
      if middle.None? {
        SeekFailed(writer(0), lo, taken);
        found := false;
      } else {
        found, target, taken, turns := SearchAndSettle(filter, moved, writer, h, lo);
      }
    }

    method SearchAndSettle(filter: T -> int, moved: int -> int, writer: nat -> seq<T>,
                           ghost h: seq<T>, ghost lo: int)
      returns (found: bool, ghost target: int, ghost taken: int, ghost turns: nat)
      requires Valid() && lock != null && LockedFrom(View(), lo, |h|) && h == log.history && hand == None
      requires SortedFrom(h, lo, filter) && lo == WindowStart(log)
      modifies this`lock, this`position, this`notified, this`signals, log, log.chain
      ensures Valid() && h <= log.history && (lock == null || fresh(lock))
      ensures |log.history| <= |h| + |Attempts(writer, 0, turns)|
      ensures found ==> IsTarget(h, lo, filter, target) && Positioned(View(), target) && signals == old(signals)
      ensures !found ==>
                && AllSmaller(h, lo, filter) && InVain(h, writer, View(), taken, old(signals))
    {
      hide *;
      SearchStarts(filter, writer, h, lo);
      WindowStartIs();
      var at, turn;
      ghost var l;
      at, turn, target, l := Search(filter, moved, writer, h, lo);
      taken, turns := l.taken, turn + 1;
      found := at >= 0;
      Protected(h, l);
      SettledAt(log.maxRecords, log.recordSize, h, lo, filter, l.from, target, at);
      if found {
        SettleAt(writer, turn, at, h, target, l);
      } else {
        GiveUp(writer, turn, h, l);
      }
    }

    lemma WindowStartIs()
      requires log.maxRecords > 0
      ensures WindowStart(log) == |log.history| - WindowSize(log.maxRecords, |log.history|)
    {
    }

    /** After the loop of a search that found record `i`. */
    method SettleAt(writer: nat -> seq<T>, turn: nat, at: int, ghost h: seq<T>, ghost i: int, ghost l: SearchLock)
      requires Protects(h, l) && hand == None && l.from <= i < |h|
      requires at == Offset(log.maxRecords, log.recordSize, i)
      requires Accounted(log.maxRecords, |h|, |log.history|, writer, l, turn)
      modifies this`lock, this`position, log, log.chain
      ensures Valid() && h <= log.history && Positioned(View(), i) && lock != null && fresh(lock)
      ensures |log.history| <= |h| + |Attempts(writer, 0, turn + 1)|
    {
      hide *;
      Protected(h, l);
      TurnAccounted(log.maxRecords, |h|, |log.history|, writer, l, turn);
      GrowthBound(log.maxRecords, |h|, Reached(|log.history|, |writer(turn)|, l.from + log.maxRecords),
                  writer, l, turn + 1);
      SeekSucceeded(writer(turn), at, l.from, l.taken, i);
    }

    /** After the loop of a search without success, whose last lock is `l`. */
    method GiveUp(writer: nat -> seq<T>, turn: nat, ghost h: seq<T>, ghost l: SearchLock)
      requires Protects(h, l) && hand == None && h != [] && turn == l.turn + 3
      requires l == LastLock(log.maxRecords, writer, |h|,
                             SearchLock(|h| - WindowSize(log.maxRecords, |h|), |h|, 0))
      requires Accounted(log.maxRecords, |h|, |log.history|, writer, l, turn)
      modifies this`lock, this`notified, this`signals, log, log.chain
      ensures Valid() && h <= log.history && (lock == null || fresh(lock))
      ensures InVain(h, writer, View(), l.taken, old(signals))
      ensures |log.history| <= |h| + |Attempts(writer, 0, turn + 1)|
    {
      hide *;
      Protected(h, l);
      TurnAccounted(log.maxRecords, |h|, |log.history|, writer, l, turn);
      GrowthBound(log.maxRecords, |h|, Reached(|log.history|, |writer(turn)|, l.from + log.maxRecords),
                  writer, l, turn + 1);
      FailureAccounted(log.maxRecords, writer, h, l, |log.history|);
      SeekFailed(writer(turn), l.from, l.taken);
      Seen();
      VainlySought(h, writer, View(), l.taken, old(signals));
    }

    lemma Protected(h: seq<T>, l: SearchLock)
      requires Protects(h, l)
      ensures l.from < l.taken <= |log.history| && l.taken <= l.from + log.maxRecords
      ensures log.chain == [lock] && lock != null && Valid() && h <= log.history && |h| <= l.taken
      ensures LockedFrom(View(), l.from, l.taken) && log.maxRecords > 0
    {
    }

    /** Reads one record and reports the log exhausted when it is the newest one; the writer is let
        in between the two. */
    method Pull(writer: seq<T>, ghost r: int) returns (record: Option<T>)
      requires Valid() && hand == None
      requires if lock == null then Unlocked(View()) else Positioned(View(), r)
      modifies this`lock, this`position, this`hand, this`pulled, this`notified, this`signals, log, log.chain
      ensures Valid() && hand == None && old(log.history) <= log.history
      ensures |log.history| <= |old(log.history)| + |writer|
      ensures lock == null || fresh(lock)
      ensures hasClient ==> notified - old(notified) == signals - old(signals)
      ensures old(lock) == null ==> record == None && View() == old(View())
      ensures old(lock) != null ==>
                && record == Some(log.history[r]) && pulled == old(pulled) + [log.history[r]]
                && (r + 1 == |log.history| ==> lock == null && Unlocked(View()) && signals == old(signals) + 1)
                && (r + 1 < |log.history| ==> lock != null && Positioned(View(), r + 1) && signals == old(signals))
                && View() == Next(WriteAll(Next(old(View()), Read), writer), Check)
    {
      if lock == null {
        return None;
      }
      var x := ReadLocked(writer, r);
      CheckIsExact(View(), r);
      ReturnRecord();
      return Some(x);
    }

    method ReadLocked(after: seq<T>, ghost r: int) returns (record: T)
      requires Valid() && lock != null && Positioned(View(), r)
      modifies this`position, this`hand, log`file, log`position, log`storedPosition, log`history
      ensures Valid() && Holding(View(), r) && record == log.history[r] && hand == Some(record)
      ensures old(log.history) <= log.history
      ensures |log.history| <= |old(log.history)| + |after|
      ensures View() == WriteAll(Next(old(View()), Read), after)
    {
      hide *;
      Seen();
      ghost var taken := ReadStep(View(), r);
      WritesHold(Next(View(), Read), after, r, taken);
      record := ReadAt();
      Seen();
      LetWriterInLocked(after, r, taken);
      Seen();
    }

    lemma Sized()
      requires Valid()
      ensures log.maxRecords > 0 && log.recordSize > 0
    {
    }

    lemma Seen()
      ensures View().hand == hand && View().history == log.history && View().position == position
      ensures View().log.maxRecords == log.maxRecords && View().log.recordSize == log.recordSize
      ensures View().signals == signals
    {
    }

    method ReturnRecord()
      requires Valid() && lock != null && hand.Some?
      modifies this`lock, this`hand, this`pulled, this`notified, this`signals,
               log`lock, log`lockStart, log`lockEnd, log`chain, log.chain
      ensures Valid() && View() == Next(old(View()), Check) && (lock == null || fresh(lock))
    {
      CheckExhausted(position);
      pulled := pulled + [hand.value];
      hand := None;
    }
  }

  /** The number of the oldest record a search looks at. */
  ghost function WindowStart<T>(log: CyclicLog<T>): int
    requires log.maxRecords > 0
    reads log
  {
    |log.history| - WindowSize(log.maxRecords, |log.history|)
  }

  /** An empty log under the lock that a search takes of it; it keeps the writer out. */
  ghost predicate EmptyAndLocked<T>(s: System<T>) {
    && Represents(s.log, s.history) && s.history == []
    && s.lock == Some(Region(0, 0)) && s.log.locks == [Region(0, 0)] && s.log.bounds == Region(0, 0)
  }

  lemma DropKeeps<T>(s: System<T>)
    requires Represents(s.log, s.history) && |s.log.locks| == 1
    ensures Represents(DropLock(s).log, s.history) && DropLock(s).history == s.history
    ensures DropLock(s).log.locks == [] && DropLock(s).lock == None
  {
  }

  /** Locking everything recorded protects the newest records, as many as a window holds. */
  lemma LockTakesWindow<T>(s: System<T>)
    requires Represents(s.log, s.history) && s.log.locks == []
    ensures var g, lo := WholeRegion(s.log), |s.history| - WindowSize(s.log.maxRecords, |s.history|);
            var t := s.(log := AddLock(s.log, g), lock := Some(g));
            && Represents(t.log, s.history)
            && g == Region(Offset(s.log.maxRecords, s.log.recordSize, lo), s.log.position)
            && if s.history == [] then EmptyAndLocked(t) else LockedFrom(t, lo, |s.history|)
  {
    hide WholeRegion, WindowSize, Offset;
    OffsetOfNone(s.log.maxRecords, s.log.recordSize);
    WholeRegionIsWindow(s.log, s.history);
  }

  lemma OffsetOfNone(n: int, size: int)
    requires n > 0
    ensures Offset(n, size, 0) == 0
  {
  }

  lemma MiddleOfWindow(n: int, size: int, written: int)
    requires n > 0 && size > 0 && written >= 0
    ensures var lo := written - WindowSize(n, written);
            Middle(Offset(n, size, lo), Offset(n, size, written), size, Min(written, n) * size).Some?
            <==> written > 0
  {
    if written > 0 {
      MiddleIsHalfway(n, size, written - WindowSize(n, written), written, written);
    }
  }

  lemma ReadStep<T>(s: System<T>, r: int) returns (taken: int)
    requires Positioned(s, r)
    ensures Readable(s) && Next(s, Read) == ReadRecord(s)
    ensures LockedFrom(Next(s, Read), r, taken) && Holding(Next(s, Read), r)
  {
    ReadHolds(s, r);
    taken :| LockedFrom(s, r, taken);
    assert LockedFrom(ReadRecord(s), r, taken);
  }

  /** A record read is still in the reader's hand, and in the log, after any writes. */
  lemma WritesHold<T>(s: System<T>, records: seq<T>, r: int, taken: int)
    requires LockedFrom(s, r, taken) && Holding(s, r)
    ensures var t := WriteAll(s, records);
            && Holding(t, r) && s.history <= t.history && t.hand == s.hand && r < |t.history|
            && t.hand == Some(t.history[r]) && |t.history| <= |s.history| + |records|
  {
    WriteAllUnderLock(s, records, r, taken);
    assert LockedFrom(WriteAll(s, records), r, taken);
  }

  lemma {:induction false} EmptyBlocks<T>(s: System<T>, records: seq<T>)
    requires EmptyAndLocked(s)
    ensures WriteAll(s, records) == s
  {
    if records != [] {
      EmptyBlocks(s, records[..|records| - 1]);
    }
  }

  /** The end of a search without success: the writer is let in, then the lock's end is compared with the
      write position. */
  lemma FailureOutcome<T>(s: System<T>, before: seq<T>, r: int, taken: int)
    requires LockedFrom(s, r, taken) || (EmptyAndLocked(s) && taken == 0)
    ensures var w := WriteAll(s, before);
            && w.lock == s.lock && s.lock.Some? && w.log.locks != []
            && var e := CheckExhaust(w, s.lock.value.end);
            && e.history == w.history && s.history <= e.history
            && |e.history| == (if s.history == [] then 0 else Reached(|s.history|, |before|, r + s.log.maxRecords))
            && (taken == |e.history| ==> Unlocked(e) && e.signals == s.signals + 1)
            && (taken < |e.history| ==> LockedFrom(e, taken, |e.history|) && e.signals == s.signals)
  {
    if LockedFrom(s, r, taken) {
      WriteAllUnderLock(s, before, r, taken);
      ExhaustAtEnd(WriteAll(s, before), r, taken);
    } else {
      EmptyBlocks(s, before);
    }
  }

  lemma ExhaustAtEnd<T>(s: System<T>, r: int, taken: int)
    requires LockedFrom(s, r, taken)
    ensures var e := CheckExhaust(s, Offset(s.log.maxRecords, s.log.recordSize, taken));
            && (taken == |s.history| ==> Unlocked(e) && e.signals == s.signals + 1)
            && (taken < |s.history| ==> LockedFrom(e, taken, |s.history|) && e.signals == s.signals)
  {
    OffsetInjective(s.log.maxRecords, s.log.recordSize, taken, |s.history|);
    if taken < |s.history| {
      RelockKeeps(s, r, taken, taken);
    }
  }
}
